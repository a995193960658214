/**
 * Throw-away mailboxes (`MailboxDTO`): the shape of a random mailbox name,
 * the address and expiry of a freshly created mailbox, and the expiry test.
 * The random draws (`Random.Next`) and the clock (`DateTime.UtcNow`) are
 * parameters.
 */
module Mailboxes {
  import opened Common

  /** The vowels; letters with an even number are drawn from these. */
  const Set1: seq<char> := ['a', 'e', 'i', 'o', 'u', 'y']
  /** The consonants; letters with an odd number are drawn from these. */
  const Set2: seq<char> := ['b', 'c', 'd', 'f', 'l', 'm', 'n', 'p', 'r', 's', 't', 'v']

  /** The '.' follows this many letters. */
  const FirstNameLength: nat := 6
  /** The number of letters in a name. */
  const FullNameLength: nat := 14

  /** The set letter number `n` (counting from 1) is drawn from. */
  function SetFor(n: nat): (set_: seq<char>)
    ensures |set_| > 0
  {
    if n % 2 == 0 then Set1 else Set2
  }

  /** Letter number `n` for the draw `d`: the draw modulo the size of the set. */
  function Letter(n: nat, d: nat): char {
    SetFor(n)[d % |SetFor(n)|]
  }

  /** The name after the first `k` letters were appended, each from its own draw. */
  function NameSoFar(draws: seq<nat>, k: nat): string
    requires k <= |draws|
  {
    if k == 0 then ""
    else NameSoFar(draws, k - 1) + [Letter(k, draws[k - 1])] + (if k == FirstNameLength then "." else "")
  }

  /** Appending letter number `k` to the name of the first `k - 1`. */
  lemma NameSoFarStep(draws: seq<nat>, k: nat)
    requires 0 < k <= |draws|
    ensures NameSoFar(draws, k)
      == NameSoFar(draws, k - 1) + [Letter(k, draws[k - 1])] + (if k == FirstNameLength then "." else "")
  {
  }

  /** Where letter number `n` lands in the name: one place later once the '.' was written. */
  function PositionOf(n: nat): nat
    requires n >= 1
  {
    if n <= FirstNameLength then n - 1 else n
  }

  /** `RandomName`: fourteen letters with a '.' after the sixth; `draws` are the fourteen draws in order. */
  method RandomName(draws: seq<nat>) returns (name: string)
    requires |draws| == FullNameLength
    ensures name == NameSoFar(draws, FullNameLength)
  {
    name := "";
    assert name == NameSoFar(draws, 0);
    hide NameSoFar;
    for n := 1 to FullNameLength + 1
      invariant name == NameSoFar(draws, n - 1)
    {
      NameSoFarStep(draws, n);
      name := name + [Letter(n, draws[n - 1])];
      if n == FirstNameLength {
        name := name + ".";
      }
    }
  }

  /** The name after `k` letters has `k` characters, plus the '.' once the sixth letter was written. */
  lemma {:induction false} NameSoFarLength(draws: seq<nat>, k: nat)
    requires k <= |draws|
    ensures |NameSoFar(draws, k)| == (if k >= FirstNameLength then k + 1 else k)
  {
    if k > 0 {
      NameSoFarLength(draws, k - 1);
    }
  }

  /** Appending letters never changes what was written before. */
  lemma {:induction false} NameSoFarExtends(draws: seq<nat>, j: nat, k: nat)
    requires j <= k <= |draws|
    ensures |NameSoFar(draws, j)| <= |NameSoFar(draws, k)|
    ensures NameSoFar(draws, j) == NameSoFar(draws, k)[..|NameSoFar(draws, j)|]
    decreases k - j
  {
    hide NameSoFar;
    if j < k {
      NameSoFarExtends(draws, j, k - 1);
      NameSoFarStep(draws, k);
      var prev := NameSoFar(draws, k - 1);
      assert NameSoFar(draws, k)[..|prev|] == prev;
    }
  }

  /**
   * The first `k` letters: every letter sits at its position, and the '.' is
   * at index 6 once the sixth letter was written.
   */
  lemma NameSoFarShape(draws: seq<nat>, k: nat)
    requires k <= |draws|
    ensures var name := NameSoFar(draws, k);
      && |name| == (if k >= FirstNameLength then k + 1 else k)
      && (forall n :: 1 <= n <= k ==> name[PositionOf(n)] == Letter(n, draws[n - 1]))
      && (k >= FirstNameLength ==> name[FirstNameLength] == '.')
  {
    var name := NameSoFar(draws, k);
    NameSoFarLength(draws, k);
    forall n | 1 <= n <= k
      ensures name[PositionOf(n)] == Letter(n, draws[n - 1])
    {
      NameSoFarExtends(draws, n, k);
      NameSoFarLength(draws, n - 1);
    }
    if k >= FirstNameLength {
      NameSoFarExtends(draws, FirstNameLength, k);
      NameSoFarLength(draws, FirstNameLength - 1);
    }
  }

  /** Every position other than `i` of the name is a letter position. */
  lemma LetterAt(i: nat)
    requires i < FullNameLength + 1 && i != FirstNameLength
    ensures var n := if i < FirstNameLength then i + 1 else i;
      1 <= n <= FullNameLength && PositionOf(n) == i
  {
  }

  /**
   * A random name has fifteen characters: a '.' at index 6, right after the
   * sixth letter, and a letter everywhere else. Letter number n is a vowel
   * when n is even and a consonant when n is odd. As neither set holds '.',
   * the name holds exactly one '.'.
   */
  lemma RandomNameShape(draws: seq<nat>)
    requires |draws| == FullNameLength
    ensures var name := NameSoFar(draws, FullNameLength);
      && |name| == 15
      && name[6] == '.'
      && (forall n :: 1 <= n <= FullNameLength && n % 2 == 0 ==> name[PositionOf(n)] in Set1)
      && (forall n :: 1 <= n <= FullNameLength && n % 2 == 1 ==> name[PositionOf(n)] in Set2)
      && (forall i :: 0 <= i < |name| ==> (name[i] == '.' <==> i == 6))
  {
    NameSoFarShape(draws, FullNameLength);
    var name := NameSoFar(draws, FullNameLength);
    forall i | 0 <= i < |name| && i != 6
      ensures name[i] != '.' && name[i] in Set1 + Set2
    {
      LetterAt(i);
    }
  }

  /** `MailboxDTO`: the database id, the access token, the address and the expiry time. */
  class Mailbox {
    var id: int
    var token: Guid
    var address: string
    var expiresOn: Instant

    constructor ()
      ensures id == 0 && token == EmptyGuid && address == "" && expiresOn == 0
    {
      id := 0;
      token := EmptyGuid;
      address := "";
      expiresOn := 0;
    }

    /** `IsExpired`: the mailbox is expired from its expiry time on. */
    predicate IsExpired(now: Instant)
      reads this
    {
      now >= expiresOn
    }
  }

  /** The address of a new mailbox: the name, '@' and the domain picked by the draw. */
  function MailboxAddress(name: string, domains: seq<string>, draw: nat): (address: string)
    requires |domains| > 0
    ensures |address| > |name| && address[..|name|] == name && address[|name|] == '@'
    ensures address[|name| + 1..] in domains
  {
    var domain := domains[draw % |domains|];
    assert (name + ['@'] + domain)[|name| + 1..] == domain;
    name + ['@'] + domain
  }

  /**
   * `CreateRandomOne`: a new mailbox with the given token, a random name at
   * one of the configured domains, expiring `ttlMinutes` after `now`.
   */
  method CreateRandomOne(token: Guid, nameDraws: seq<nat>, domainDraw: nat, domains: seq<string>,
                         ttlMinutes: int, now: Instant) returns (m: Mailbox)
    requires |nameDraws| == FullNameLength && |domains| > 0
    ensures fresh(m)
    ensures m.id == 0 && m.token == token
    ensures m.address == MailboxAddress(NameSoFar(nameDraws, FullNameLength), domains, domainDraw)
    ensures m.expiresOn == now + ttlMinutes * TicksPerMinute
  {
    m := new Mailbox();
    m.token := token;
    var name := RandomName(nameDraws);
    m.address := name + ['@'] + domains[domainDraw % |domains|];
    m.expiresOn := now + ttlMinutes * TicksPerMinute;
  }

  /**
   * A mailbox created at `created` with a time to live of at least one
   * minute is not expired when created, nor before its time to live has
   * passed, and is expired from then on.
   */
  lemma ExpiresAfterTimeToLive(m: Mailbox, created: Instant, ttlMinutes: int, now: Instant)
    requires ttlMinutes >= 1 && m.expiresOn == created + ttlMinutes * TicksPerMinute
    ensures !m.IsExpired(created)
    ensures m.IsExpired(now) <==> now - created >= ttlMinutes * TicksPerMinute
  {
  }

  /** Expiry is permanent: a mailbox expired at one time is expired at every later time. */
  lemma ExpiryIsPermanent(m: Mailbox, earlier: Instant, later: Instant)
    requires earlier <= later
    ensures m.IsExpired(earlier) ==> m.IsExpired(later)
  {
  }
}
