/** The canonical byte encoding of an audit entry, and exactly when it is injective. */
module AuditEntries {
  import opened ByteStrings

  datatype Action =
    | Init | Unseal | Read | Write | Delete | Rollback | List | Tag
    | TokenCreate | TokenRevoke | PolicyWrite | Resolve | AuthFailure | Rekey | Backup | Restore

  datatype Outcome = Success | Denied | NotFound | Error

  datatype Entry = Entry(
    ts: I64,
    tokenPrefix: Option<Text>,
    peerUid: Option<U32>,
    peerPid: Option<U32>,
    action: Action,
    path: Option<Text>,
    version: Option<Version>,
    outcome: Outcome,
    detail: Option<Text>)

  function ActionName(a: Action): (s: string)
    ensures IsAscii(s) && 3 <= |s| <= 12
  {
    match a
    case Init => "init"
    case Unseal => "unseal"
    case Read => "read"
    case Write => "write"
    case Delete => "delete"
    case Rollback => "rollback"
    case List => "list"
    case Tag => "tag"
    case TokenCreate => "token_create"
    case TokenRevoke => "token_revoke"
    case PolicyWrite => "policy_write"
    case Resolve => "resolve"
    case AuthFailure => "auth_failure"
    case Rekey => "rekey"
    case Backup => "backup"
    case Restore => "restore"
  }

  function ParseAction(raw: string): (r: Option<Action>)
    ensures r.Some? ==> ActionName(r.value) == raw
  {
    if raw == "init" then Some(Init)
    else if raw == "unseal" then Some(Unseal)
    else if raw == "read" then Some(Read)
    else if raw == "write" then Some(Write)
    else if raw == "delete" then Some(Delete)
    else if raw == "rollback" then Some(Rollback)
    else if raw == "list" then Some(List)
    else if raw == "tag" then Some(Tag)
    else if raw == "token_create" then Some(TokenCreate)
    else if raw == "token_revoke" then Some(TokenRevoke)
    else if raw == "policy_write" then Some(PolicyWrite)
    else if raw == "resolve" then Some(Resolve)
    else if raw == "auth_failure" then Some(AuthFailure)
    else if raw == "rekey" then Some(Rekey)
    else if raw == "backup" then Some(Backup)
    else if raw == "restore" then Some(Restore)
    else None
  }

  function OutcomeName(o: Outcome): (s: string)
    ensures IsAscii(s) && 5 <= |s| <= 9
  {
    match o
    case Success => "success"
    case Denied => "denied"
    case NotFound => "not_found"
    case Error => "error"
  }

  function ParseOutcome(raw: string): (r: Option<Outcome>)
    ensures r.Some? ==> OutcomeName(r.value) == raw
  {
    if raw == "success" then Some(Success)
    else if raw == "denied" then Some(Denied)
    else if raw == "not_found" then Some(NotFound)
    else if raw == "error" then Some(Error)
    else None
  }

  /** The stored names parse back, so distinct actions and outcomes have distinct names. */
  lemma NamesRoundTrip(a: Action, o: Outcome)
    ensures ParseAction(ActionName(a)) == Some(a)
    ensures ParseOutcome(OutcomeName(o)) == Some(o)
  {
    match a {
      case Init => case Unseal => case Read => case Write => case Delete => case Rollback =>
      case List => case Tag => case TokenCreate => case TokenRevoke => case PolicyWrite =>
      case Resolve => case AuthFailure => case Rekey => case Backup => case Restore =>
    }
    match o { case Success => case Denied => case NotFound => case Error => }
  }

  // ----- the encoding -----

  const ABSENT: Byte := 0xFF

  function Field(b: Text): (r: Bytes)
    ensures |r| == 4 + |b|
  {
    Le32(|b|) + b
  }

  function OptField(o: Option<Text>): (r: Bytes)
    ensures |r| >= 1
  {
    match o
    case Some(b) => Field(b)
    case None => [ABSENT]
  }

  function Word(n: Option<U32>): (r: Option<Text>)
    ensures r.Some? ==> |r.value| == 4
  {
    match n
    case Some(v) => Some(Le32(v))
    case None => None
  }

  function VersionWord(v: Option<Version>): (r: Option<U32>)
    ensures r.Some? <==> v.Some?
    ensures v.Some? ==> r.value == v.value
  {
    match v
    case Some(n) => Some(n)
    case None => None
  }

  /** The encoding from each field on to the end of the entry. */
  function FromDetail(e: Entry): Bytes { OptField(e.detail) }
  function FromOutcome(e: Entry): Bytes { Field(Ascii(OutcomeName(e.outcome))) + FromDetail(e) }
  function FromVersion(e: Entry): Bytes { OptField(Word(VersionWord(e.version))) + FromOutcome(e) }
  function FromPath(e: Entry): Bytes { OptField(e.path) + FromVersion(e) }
  function FromAction(e: Entry): Bytes { Field(Ascii(ActionName(e.action))) + FromPath(e) }
  function FromPid(e: Entry): Bytes { OptField(Word(e.peerPid)) + FromAction(e) }
  function FromUid(e: Entry): Bytes { OptField(Word(e.peerUid)) + FromPid(e) }
  function FromPrefix(e: Entry): Bytes { OptField(e.tokenPrefix) + FromUid(e) }

  function Canonical(e: Entry): Bytes { Field(Le64(Unsigned64(e.ts))) + FromPrefix(e) }

  /** The buffer the encoders append to. */
  class Buffer {
    var bytes: Bytes

    constructor ()
      ensures bytes == []
    {
      bytes := [];
    }

    method EncodeField(b: Text)
      modifies this
      ensures bytes == old(bytes) + Field(b)
    {
      bytes := bytes + Le32(|b|);
      bytes := bytes + b;
    }

    method EncodeOptField(o: Option<Text>)
      modifies this
      ensures bytes == old(bytes) + OptField(o)
    {
      match o {
        case Some(b) => EncodeField(b);
        case None => bytes := bytes + [ABSENT];
      }
    }

    method WriteCanonical(e: Entry)
      modifies this
      ensures bytes == old(bytes) + Canonical(e)
    {
      EncodeField(Le64(Unsigned64(e.ts)));
      EncodeOptField(e.tokenPrefix);
      EncodeOptField(Word(e.peerUid));
      EncodeOptField(Word(e.peerPid));
      label peer:
      AppendRegroups(
        old(bytes), Field(Le64(Unsigned64(e.ts))), OptField(e.tokenPrefix),
        OptField(Word(e.peerUid)), OptField(Word(e.peerPid)), FromAction(e));
      EncodeField(Ascii(ActionName(e.action)));
      EncodeOptField(e.path);
      EncodeOptField(Word(VersionWord(e.version)));
      EncodeField(Ascii(OutcomeName(e.outcome)));
      EncodeOptField(e.detail);
      AppendRegroups(
        old@peer(bytes), Field(Ascii(ActionName(e.action))), OptField(e.path),
        OptField(Word(VersionWord(e.version))), Field(Ascii(OutcomeName(e.outcome))), FromDetail(e));
    }
  }

  lemma AppendRegroups(o: Bytes, a: Bytes, b: Bytes, c: Bytes, d: Bytes, e: Bytes)
    ensures o + a + b + c + d + e == o + (a + (b + (c + (d + e))))
  {
  }

  // ----- injectivity -----

  /** Token prefix and path, when present, are shorter than `n` bytes. */
  predicate ShorterThan(e: Entry, n: nat) {
    && (e.tokenPrefix.Some? ==> |e.tokenPrefix.value| < n)
    && (e.path.Some? ==> |e.path.value| < n)
  }

  ghost predicate InjectiveBelow(n: nat) {
    forall e: Entry, f: Entry ::
      ShorterThan(e, n) && ShorterThan(f, n) && Canonical(e) == Canonical(f) ==> e == f
  }

  lemma SplitAt(a: Bytes, x: Bytes, b: Bytes, y: Bytes)
    requires a + x == b + y && |a| == |b|
    ensures a == b && x == y
  {
    assert a == (a + x)[..|a|] && b == (b + y)[..|b|];
    assert x == (a + x)[|a|..] && y == (b + y)[|b|..];
  }

  /** A length-prefixed field followed by anything can be read back. */
  lemma FieldSplits(a: Text, x: Bytes, b: Text, y: Bytes)
    requires Field(a) + x == Field(b) + y
    ensures a == b && x == y
  {
    hide Le32;
    AppendAssociates(Le32(|a|), a, x);
    AppendAssociates(Le32(|b|), b, y);
    SplitAt(Le32(|a|), a + x, Le32(|b|), b + y);
    Le32Injective(|a|, |b|);
    SplitAt(a, x, b, y);
  }

  lemma AppendAssociates(a: Bytes, b: Bytes, c: Bytes)
    ensures (a + b) + c == a + (b + c)
  {
  }

  /** The first two bytes of a present field are the low bytes of its length. */
  lemma FieldLead(b: Text)
    ensures Field(b)[0] == |b| % 256 && Field(b)[1] == |b| / 256 % 256
  {
    Le32Bytes(|b|);
  }

  /** An optional 4-byte word cannot be mistaken for an absent one: 0x04 is not 0xFF. */
  lemma WordSplits(a: Option<U32>, x: Bytes, b: Option<U32>, y: Bytes)
    requires OptField(Word(a)) + x == OptField(Word(b)) + y
    ensures a == b && x == y
  {
    WordLead(a, x);
    WordLead(b, y);
    if a.Some? {
      FieldSplits(Le32(a.value), x, Le32(b.value), y);
      Le32Injective(a.value, b.value);
    } else {
      SplitAt([ABSENT], x, [ABSENT], y);
    }
  }

  lemma WordLead(a: Option<U32>, x: Bytes)
    ensures var r := OptField(Word(a)) + x; |r| >= 1 && r[0] == if a.Some? then 4 else 255
  {
  }

  /** A byte that can follow an absent token prefix or path. */
  predicate WordFollows(x: Bytes) {
    |x| >= 1 && (x[0] == 4 || x[0] == 255)
  }

  /** The hard step: 0xFF may also be the low byte of a length, but then the next byte tells. */
  lemma ShortOptSplits(a: Option<Text>, x: Bytes, b: Option<Text>, y: Bytes)
    requires OptField(a) + x == OptField(b) + y
    requires a.Some? ==> |a.value| < 1279
    requires b.Some? ==> |b.value| < 1279
    requires WordFollows(x) && WordFollows(y)
    ensures a == b && x == y
  {
    if a.Some? && b.Some? {
      FieldSplits(a.value, x, b.value, y);
    } else if a.None? && b.None? {
      SplitAt([ABSENT], x, [ABSENT], y);
    } else if a.Some? {
      ShortOptDistinct(a.value, x, y);
    } else {
      ShortOptDistinct(b.value, y, x);
    }
  }

  lemma ShortOptDistinct(b: Text, x: Bytes, y: Bytes)
    requires |b| < 1279 && WordFollows(y)
    ensures Field(b) + x != [ABSENT] + y
  {
    FieldLead(b);
    assert (Field(b) + x)[0] == |b| % 256 && (Field(b) + x)[1] == |b| / 256 % 256;
    assert ([ABSENT] + y)[0] == 255 && ([ABSENT] + y)[1] == y[0];
  }

  /** The last field needs no bound: the whole encoding ends with it. */
  lemma LastOptSplits(a: Option<Text>, b: Option<Text>)
    requires OptField(a) == OptField(b)
    ensures a == b
  {
    if a.Some? && b.Some? {
      assert Field(a.value) + [] == Field(b.value) + [];
      FieldSplits(a.value, [], b.value, []);
    }
  }

  lemma OutcomeOnwards(e: Entry, f: Entry)
    requires FromOutcome(e) == FromOutcome(f)
    ensures e.outcome == f.outcome && e.detail == f.detail
  {
    var (m, n) := (OutcomeName(e.outcome), OutcomeName(f.outcome));
    FieldSplits(Ascii(m), FromDetail(e), Ascii(n), FromDetail(f));
    AsciiInjective(m, n);
    NamesRoundTrip(e.action, e.outcome);
    NamesRoundTrip(f.action, f.outcome);
    LastOptSplits(e.detail, f.detail);
  }

  lemma PathOnwards(e: Entry, f: Entry)
    requires ShorterThan(e, 1279) && ShorterThan(f, 1279)
    requires FromPath(e) == FromPath(f)
    ensures e.path == f.path && e.version == f.version && e.outcome == f.outcome && e.detail == f.detail
  {
    WordLead(VersionWord(e.version), FromOutcome(e));
    WordLead(VersionWord(f.version), FromOutcome(f));
    ShortOptSplits(e.path, FromVersion(e), f.path, FromVersion(f));
    WordSplits(VersionWord(e.version), FromOutcome(e), VersionWord(f.version), FromOutcome(f));
    OutcomeOnwards(e, f);
  }

  lemma UidOnwards(e: Entry, f: Entry)
    requires ShorterThan(e, 1279) && ShorterThan(f, 1279)
    requires FromUid(e) == FromUid(f)
    ensures e == f.(ts := e.ts, tokenPrefix := e.tokenPrefix)
  {
    WordSplits(e.peerUid, FromPid(e), f.peerUid, FromPid(f));
    WordSplits(e.peerPid, FromAction(e), f.peerPid, FromAction(f));
    var (m, n) := (ActionName(e.action), ActionName(f.action));
    FieldSplits(Ascii(m), FromPath(e), Ascii(n), FromPath(f));
    AsciiInjective(m, n);
    NamesRoundTrip(e.action, e.outcome);
    NamesRoundTrip(f.action, f.outcome);
    PathOnwards(e, f);
  }

  /** Two short entries with the same encoding are the same entry. */
  lemma CanonicalInjective(e: Entry, f: Entry)
    requires ShorterThan(e, 1279) && ShorterThan(f, 1279)
    requires Canonical(e) == Canonical(f)
    ensures e == f
  {
    FieldSplits(Le64(Unsigned64(e.ts)), FromPrefix(e), Le64(Unsigned64(f.ts)), FromPrefix(f));
    TimestampBytesInjective(e.ts, f.ts);
    WordLead(e.peerUid, FromPid(e));
    WordLead(f.peerUid, FromPid(f));
    ShortOptSplits(e.tokenPrefix, FromUid(e), f.tokenPrefix, FromUid(f));
    UidOnwards(e, f);
  }

  // ----- the bound is tight -----

  predicate SevenBit(b: Bytes) {
    forall i :: 0 <= i < |b| ==> b[i] < 128
  }

  predicate AsciiText(o: Option<Text>) {
    o.Some? ==> SevenBit(o.value)
  }

  /** Every text column holds 7-bit bytes, so each is a well-formed Rust string. */
  predicate AsciiColumns(e: Entry) {
    AsciiText(e.tokenPrefix) && AsciiText(e.path) && AsciiText(e.detail)
  }

  /** What follows the first three uid bytes, up to the detail's length prefix. */
  function Middle(e: Entry): Bytes
    requires e.peerUid.Some?
  {
    ([0] + Le32(e.peerUid.value)) + (OptField(Word(e.peerPid)) + (Field(Ascii(ActionName(e.action)))
      + (OptField(e.path) + (OptField(Word(VersionWord(e.version))) + Field(Ascii(OutcomeName(e.outcome)))))))
  }

  lemma FromUidRegroups(e: Entry)
    requires e.peerUid.Some? && e.detail.Some?
    ensures FromUid(e) == [4, 0, 0] + (Middle(e) + Field(e.detail.value))
  {
    UidField(e.peerUid.value);
    MiddleRegroups([4, 0, 0], [0] + Le32(e.peerUid.value), OptField(Word(e.peerPid)),
      Field(Ascii(ActionName(e.action))), OptField(e.path), OptField(Word(VersionWord(e.version))),
      Field(Ascii(OutcomeName(e.outcome))), Field(e.detail.value));
  }

  lemma UidField(n: U32)
    ensures Field(Le32(n)) == [4, 0, 0] + ([0] + Le32(n))
  {
  }

  lemma MiddleRegroups(z: Bytes, a: Bytes, b: Bytes, c: Bytes, d: Bytes, e: Bytes, f: Bytes, g: Bytes)
    ensures (z + a) + (b + (c + (d + (e + (f + g))))) == z + ((a + (b + (c + (d + (e + f))))) + g)
  {
  }

  lemma SevenBitField(b: Text)
    requires SevenBit(b) && |b| < 128
    ensures SevenBit(Field(b))
  {
    Le32Bytes(|b|);
  }

  lemma SevenBitWord(n: U32)
    requires n < 128
    ensures SevenBit(Le32(n)) && SevenBit(Field(Le32(n)))
  {
    Le32Bytes(n);
    SevenBitField(Le32(n));
  }

  lemma SevenBitConcat(a: Bytes, b: Bytes)
    requires SevenBit(a) && SevenBit(b)
    ensures SevenBit(a + b)
  {
  }

  /** Nothing absent between token prefix and detail, small numbers, an empty path. */
  predicate IsPlain(e: Entry) {
    && e.peerUid.Some? && e.peerUid.value < 128
    && e.peerPid.Some? && e.peerPid.value < 128
    && e.path == Some([])
    && e.version.Some? && e.version.value < 128
  }

  lemma PlainMiddle(e: Entry)
    requires IsPlain(e)
    ensures SevenBit(Middle(e))
    ensures |Middle(e)| == 33 + |ActionName(e.action)| + |OutcomeName(e.outcome)|
  {
    var (a, o) := (Ascii(ActionName(e.action)), Ascii(OutcomeName(e.outcome)));
    var (u, p, v) := (Le32(e.peerUid.value), Le32(e.peerPid.value), Le32(e.version.value));
    SevenBitWord(e.peerUid.value);
    SevenBitWord(e.peerPid.value);
    SevenBitWord(e.version.value);
    SevenBitField([]);
    SevenBitField(a);
    SevenBitField(o);
    SevenBitConcat(Field(v), Field(o));
    SevenBitConcat(Field([]), Field(v) + Field(o));
    SevenBitConcat(Field(a), Field([]) + (Field(v) + Field(o)));
    SevenBitConcat(Field(p), Field(a) + (Field([]) + (Field(v) + Field(o))));
    SevenBitConcat([0], u);
    SevenBitConcat([0] + u, Field(p) + (Field(a) + (Field([]) + (Field(v) + Field(o)))));
  }

  /** A 1279-byte field starts with the very bytes of an absent one followed by a 4-byte word. */
  lemma LeadOf1279(b: Text)
    requires |b| == 1279
    ensures Field(b) == [ABSENT] + ([4, 0, 0] + b)
  {
  }

  /** `e` spells out, inside its detail, everything `f` holds after its token prefix. */
  lemma SpelledOut(e: Entry, f: Entry, pad: Bytes, prefix: Text)
    requires IsPlain(e) && e.tokenPrefix.None? && e.detail.Some?
    requires f == e.(tokenPrefix := Some(prefix), detail := Some([]))
    requires e.detail.value == pad + FromUid(f)
    requires prefix == Middle(e) + (Le32(|e.detail.value|) + pad) && |prefix| == 1279
    ensures Canonical(e) == Canonical(f)
  {
    var (m, l, rest) := (Middle(e), Le32(|e.detail.value|), FromUid(f));
    FromUidRegroups(e);
    Interleave(m, l, pad, rest);
    LeadOf1279(prefix);
    Interleave([ABSENT], [4, 0, 0], prefix, rest);
  }

  lemma Interleave(a: Bytes, b: Bytes, c: Bytes, d: Bytes)
    ensures a + (b + (c + d)) == (a + (b + c)) + d
  {
  }

  /** Two different entries, all columns ASCII, with one encoding. */
  lemma CollisionAt1279() returns (e: Entry, f: Entry)
    ensures e != f && Canonical(e) == Canonical(f)
    ensures AsciiColumns(e) && AsciiColumns(f)
    ensures ShorterThan(e, 1280) && ShorterThan(f, 1280)
  {
    var base := Entry(0, None, Some(0), Some(0), Init, Some([]), Some(1), Error, Some([]));
    assert |Middle(base)| == 42 by { PlainMiddle(base); }
    e, f := CollisionFrom(base);
  }

  lemma CollisionFrom(base: Entry) returns (e: Entry, f: Entry)
    requires IsPlain(base) && base.tokenPrefix.None? && base.detail == Some([])
    requires |Middle(base)| == 42
    ensures e != f && Canonical(e) == Canonical(f)
    ensures AsciiColumns(e) && AsciiColumns(f)
    ensures ShorterThan(e, 1280) && ShorterThan(f, 1280)
  {
    hide Middle, FromUid, Canonical;
    var m, rest := Middle(base), FromUid(base);
    PlainMiddle(base);
    FromUidRegroups(base);
    SevenBitField([]);
    SevenBitConcat(m, Field([]));
    SevenBitConcat([4, 0, 0], m + Field([]));
    var pad: Bytes := seq(1233, _ => 0);
    var detail: Text := pad + rest;
    SevenBitConcat(pad, rest);
    var l := Le32(|detail|);
    assert SevenBit(l) by { Le32Bytes(|detail|); }
    var prefix: Text := m + (l + pad);
    SevenBitConcat(l, pad);
    SevenBitConcat(m, l + pad);
    e, f := base.(detail := Some(detail)), base.(tokenPrefix := Some(prefix));
    MiddleAndRest(base, Some(detail), Some(prefix));
    SpelledOut(e, f, pad, prefix);
  }

  /** The middle does not depend on the detail, nor the uid onwards on the token prefix. */
  lemma MiddleAndRest(base: Entry, detail: Option<Text>, prefix: Option<Text>)
    requires base.peerUid.Some?
    ensures Middle(base.(detail := detail)) == Middle(base)
    ensures FromUid(base.(tokenPrefix := prefix)) == FromUid(base)
  {
  }

  /** The encoding is injective on entries with short fields exactly up to 1279 bytes. */
  lemma InjectiveBelowExactly(n: nat)
    ensures InjectiveBelow(n) <==> n <= 1279
  {
    if n <= 1279 {
      forall e: Entry, f: Entry |
        ShorterThan(e, n) && ShorterThan(f, n) && Canonical(e) == Canonical(f)
        ensures e == f
      {
        CanonicalInjective(e, f);
      }
    } else {
      var e, f := CollisionAt1279();
      assert ShorterThan(e, n) && ShorterThan(f, n);
    }
  }

  /** No entry encodes to fewer than 34 bytes. */
  lemma CanonicalLength(e: Entry)
    ensures |Canonical(e)| >= 34
  {
  }
}
