/** Companies and invite codes (convex/companies.ts): a six-character code
    over A-Z and 0-9, a bounded retry loop that avoids codes already stored,
    and case-insensitive lookup. */
module Companies {
  import opened Common
  import opened Store
  import opened Schema
  import Users

  /** The characters an invite code is drawn from. */
  const Alphabet := "ABCDEFGHIJKLMNOPQRSTUVWXYZ0123456789"

  const CodeLength: nat := 6

  /** How many candidate codes `create` tries before giving up. */
  const MaxAttempts: nat := 10

  predicate IsCodeChar(c: char) {
    'A' <= c <= 'Z' || '0' <= c <= '9'
  }

  /** The shape of every generated code: `^[A-Z0-9]{6}$`. */
  predicate IsInviteCode(s: string) {
    |s| == CodeLength && forall i :: 0 <= i < |s| ==> IsCodeChar(s[i])
  }

  /** The alphabet has 36 characters, all of them code characters. */
  lemma AlphabetChars()
    ensures |Alphabet| == 36
    ensures forall k :: 0 <= k < |Alphabet| ==> IsCodeChar(Alphabet[k])
  {
  }

  /** `generateInviteCode`: round `i` draws `Math.floor(Math.random() * 36)`,
      given here as `draws[i]`, and appends that character of the alphabet. */
  method GenerateInviteCode(draws: seq<nat>) returns (code: string)
    requires |draws| == CodeLength
    requires forall i :: 0 <= i < |draws| ==> draws[i] < |Alphabet|
    ensures IsInviteCode(code)
    ensures forall i :: 0 <= i < CodeLength ==> code[i] == Alphabet[draws[i]]
    ensures code == Spell(draws)
  {
    AlphabetChars();
    code := "";
    var i := 0;
    while i < CodeLength
      invariant 0 <= i <= CodeLength
      invariant |code| == i
      invariant forall k :: 0 <= k < i ==> code[k] == Alphabet[draws[k]]
    {
      code := code + [Alphabet[draws[i]]];
      i := i + 1;
    }
  }

  /** The code a sequence of draws spells, character `i` being the alphabet
      letter of draw `i`; six in-range draws always give a well-formed code. */
  function Spell(draws: seq<nat>): (code: string)
    requires forall i :: 0 <= i < |draws| ==> draws[i] < |Alphabet|
    ensures |code| == |draws|
    ensures |draws| == CodeLength ==> IsInviteCode(code)
  {
    AlphabetChars();
    seq(|draws|, i requires 0 <= i < |draws| => Alphabet[draws[i]])
  }

  /** The draw that produces a given code character. */
  function DrawOf(c: char): (k: nat)
    requires IsCodeChar(c)
    ensures k < |Alphabet| && Alphabet[k] == c
  {
    if 'A' <= c <= 'Z' then c as int - 'A' as int else 26 + (c as int - '0' as int)
  }

  /** Every code of the right shape is produced by exactly the draws this
      returns, so the generator reaches the whole code space. */
  function DrawsOf(code: string): (draws: seq<nat>)
    requires IsInviteCode(code)
    ensures |draws| == CodeLength
    ensures forall i :: 0 <= i < CodeLength ==> draws[i] < |Alphabet| && Alphabet[draws[i]] == code[i]
  {
    seq(CodeLength, i requires 0 <= i < CodeLength => DrawOf(code[i]))
  }

  /** Spelling the draws of a well-formed code gives the code back. */
  lemma SpellDrawsOf(code: string)
    requires IsInviteCode(code)
    ensures Spell(DrawsOf(code)) == code
  {
    var draws := DrawsOf(code);
    assert forall i :: 0 <= i < |code| ==> Spell(draws)[i] == code[i];
  }

  /** Row selector of the `by_inviteCode` index. */
  function HasCode(code: string): Doc<Company> -> bool {
    (d: Doc<Company>) => d.val.inviteCode == code
  }

  /** The first company stored under exactly this code (`by_inviteCode`). */
  function FindByCode(companies: Table<Company>, code: string): (r: Option<Doc<Company>>)
    ensures r.Some? ==> r.value in companies && r.value.val.inviteCode == code
    ensures r.None? <==> forall i :: 0 <= i < |companies| ==> companies[i].val.inviteCode != code
  {
    Find(companies, HasCode(code))
  }

  predicate CodeTaken(companies: Table<Company>, code: string) {
    FindByCode(companies, code).Some?
  }

  /** `getByInviteCode`: the first company stored under the upper-cased code. */
  function GetByInviteCode(db: Db, inviteCode: string): (r: Option<Doc<Company>>)
    ensures r.Some? ==> r.value in db.companies && r.value.val.inviteCode == Upper(inviteCode)
    ensures r.Some? ==> exists k :: 0 <= k < |db.companies| && db.companies[k] == r.value
                          && forall j :: 0 <= j < k ==> db.companies[j].val.inviteCode != Upper(inviteCode)
    ensures r.None? <==> forall i :: 0 <= i < |db.companies| ==> db.companies[i].val.inviteCode != Upper(inviteCode)
  {
    FindByCode(db.companies, Upper(inviteCode))
  }

  /** A code typed in lower case finds the company stored under the
      upper-case code; with unique codes it is that very company. */
  lemma LowerCaseLookupFindsCompany(db: Db, k: nat)
    requires InviteCodesUnique(db.companies)
    requires k < |db.companies| && IsInviteCode(db.companies[k].val.inviteCode)
    ensures GetByInviteCode(db, Lower(db.companies[k].val.inviteCode)) == Some(db.companies[k])
  {
    var code := db.companies[k].val.inviteCode;
    UpperOfLower(code);
    assert Upper(code) == code;
    var r := FindFirst(db.companies, HasCode(code));
    assert r.Some?;
  }

  /** `get`: the company with this id, or none. */
  function GetCompany(db: Db, companyId: Id): (r: Option<Doc<Company>>)
    ensures r.Some? ==> r.value in db.companies && r.value.id == companyId
    ensures r.None? <==> forall i :: 0 <= i < |db.companies| ==> db.companies[i].id != companyId
  {
    Get(db.companies, companyId)
  }

  /** The retry loop of `create`, from attempt `attempt` on: the index of the
      first candidate no stored company uses, or none when all of the
      remaining attempts collide. */
  function PickCode(companies: Table<Company>, candidates: nat -> string, attempt: nat): (r: Option<nat>)
    requires attempt <= MaxAttempts
    ensures r.Some? ==> attempt <= r.value < MaxAttempts
    ensures r.Some? ==> !CodeTaken(companies, candidates(r.value))
    ensures r.Some? ==> forall k :: attempt <= k < r.value ==> CodeTaken(companies, candidates(k))
    ensures r.None? <==> forall k :: attempt <= k < MaxAttempts ==> CodeTaken(companies, candidates(k))
    decreases MaxAttempts - attempt
  {
    if attempt == MaxAttempts then None
    else if !CodeTaken(companies, candidates(attempt)) then Some(attempt)
    else PickCode(companies, candidates, attempt + 1)
  }

  /** `create`: tries candidate codes `candidates(0)`, `candidates(1)`, ...
      (the successive outputs of `generateInviteCode`) until one is unused,
      at most ten times, then throws. On success it inserts the company and
      moves the first user with `creatorClerkId`, if any, into it. Returns the
      new company's id. */
  function Create(db: Db, name: string, creatorClerkId: string, candidates: nat -> string): (r: Outcome<Id>)
    ensures r.result.Failure? <==> forall k :: 0 <= k < MaxAttempts ==> CodeTaken(db.companies, candidates(k))
    ensures r.result.Failure? ==> r.result.error == InviteCodeExhausted && r.db == db
    ensures r.result.Success? ==>
              && PickCode(db.companies, candidates, 0).Some?
              && r.result.value == db.nextId
              && r.db.companies == db.companies
                   + [Doc(db.nextId, Company(name, candidates(PickCode(db.companies, candidates, 0).value)))]
              && r.db.users == Users.WithCompany(db.users, creatorClerkId, Some(db.nextId))
              && r.db.projects == db.projects && r.db.sessions == db.sessions
              && r.db.nextId == db.nextId + 1
    ensures r.result.Success? ==> !CodeTaken(db.companies, r.db.companies[|db.companies|].val.inviteCode)
    ensures Valid(db) ==> Valid(r.db)
  {
    match PickCode(db.companies, candidates, 0)
    case None => Fail(db, InviteCodeExhausted)
    case Some(k) =>
      var id := db.nextId;
      var companies := db.companies + [Doc(id, Company(name, candidates(k)))];
      var users := Users.WithCompany(db.users, creatorClerkId, Some(id));
      var db' := db.(companies := companies, users := users, nextId := id + 1);
      AppendUnusedCode(db.companies, Doc(id, Company(name, candidates(k))));
      Outcome(Success(id), db')
  }

  /** Appending a company under a code no stored company uses keeps the
      codes unique. */
  lemma AppendUnusedCode(companies: Table<Company>, d: Doc<Company>)
    ensures InviteCodesUnique(companies) && !CodeTaken(companies, d.val.inviteCode) ==>
              InviteCodesUnique(companies + [d])
  {
    var all := companies + [d];
    if InviteCodesUnique(companies) && !CodeTaken(companies, d.val.inviteCode) {
      forall i, j | 0 <= i < j < |all|
        ensures all[i].val.inviteCode != all[j].val.inviteCode
      {
        if j == |companies| {
          assert all[i] == companies[i];
        }
      }
    }
  }

  /** The code `create` stores has the generator's shape whenever the
      candidates do. */
  lemma CreateStoresWellFormedCode(db: Db, name: string, creatorClerkId: string, candidates: nat -> string)
    requires forall k :: 0 <= k < MaxAttempts ==> IsInviteCode(candidates(k))
    ensures var r := Create(db, name, creatorClerkId, candidates);
            r.result.Success? ==> IsInviteCode(r.db.companies[|db.companies|].val.inviteCode)
  {
  }

  /** The retry loop looks at no more than the first ten candidates: two
      candidate streams that agree on them give the same outcome. */
  lemma {:induction false} PickCodeReadsTenCandidates(companies: Table<Company>, c1: nat -> string,
                                                      c2: nat -> string, attempt: nat)
    requires attempt <= MaxAttempts
    requires forall k :: attempt <= k < MaxAttempts ==> c1(k) == c2(k)
    ensures PickCode(companies, c1, attempt) == PickCode(companies, c2, attempt)
    decreases MaxAttempts - attempt
  {
    if attempt < MaxAttempts {
      PickCodeReadsTenCandidates(companies, c1, c2, attempt + 1);
    }
  }

  /** `create` draws at most ten candidate codes. */
  lemma CreateDrawsAtMostTen(db: Db, name: string, creatorClerkId: string, c1: nat -> string, c2: nat -> string)
    requires forall k :: 0 <= k < MaxAttempts ==> c1(k) == c2(k)
    ensures Create(db, name, creatorClerkId, c1) == Create(db, name, creatorClerkId, c2)
  {
    PickCodeReadsTenCandidates(db.companies, c1, c2, 0);
  }

  /** The creator, when a user with that clerkId exists, ends up a member of
      the new company; a missing creator leaves every user as it was. */
  lemma CreateJoinsCreator(db: Db, name: string, creatorClerkId: string, candidates: nat -> string)
    ensures var r := Create(db, name, creatorClerkId, candidates);
            r.result.Success? ==>
              match Users.UserIndex(db.users, creatorClerkId)
              case Some(k) =>
                && r.db.users[k].val == db.users[k].val.(companyId := Some(r.result.value))
                && Users.Get(r.db, creatorClerkId).value.val.companyId == Some(r.result.value)
              case None => r.db.users == db.users
  {
    var r := Create(db, name, creatorClerkId, candidates);
    if r.result.Success? {
      match Users.UserIndex(db.users, creatorClerkId)
      case Some(k) =>
        assert forall j :: 0 <= j < k ==> r.db.users[j] == db.users[j];
        assert Users.UserIndex(r.db.users, creatorClerkId) == Some(k);
      case None =>
    }
  }
}
