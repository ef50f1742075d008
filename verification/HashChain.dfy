/** The keyed hash chain as the verifier walks it: links, the length-and-tail anchor, verdicts. */
module HashChain {
  import opened ByteStrings

  datatype Defect =
    | NegativeSeq | PrevHashLength | EntryHashLength | UnknownAction | InvalidVersion | UnknownOutcome

  /** A row number that SQLite can hold and that is not negative. */
  type RowId = n: int | 0 <= n <= I64_MAX

  /** A parsed row: a link over its canonical content, or what kept it from being one. */
  datatype Link =
    | Link(seqNo: RowId, prevHash: Digest, entryHash: Digest, content: Bytes)
    | Damaged(reported: Option<nat>, what: Defect)
    | Unreadable

  datatype Verdict =
    | Valid(entries: nat, tail: Option<Digest>)
    | Modified(seqNo: nat, stored: Digest, computed: Digest)
    | Gap(expected: nat, found: nat)
    | Truncated(expectedEntries: nat, foundEntries: nat)
    | AnchorInvalid
    | BrokenLink(seqNo: nat, expectedPrev: Digest, foundPrev: Digest)
    | Corrupt(seqNo: nat, what: Defect)

  datatype AuditError =
    | Sqlite
    | InvalidHashLength
    | AnchorUnauthenticated
    | CorruptEntry(what: Defect)
    | RefusingToRekeyBrokenChain(broken: Verdict)

  /** The previous-hash value of the very first entry. */
  function Genesis(): Digest {
    seq(32, _ => 0)
  }

  // ----- the anchor -----

  datatype Anchor = Anchor(entries: nat, tail: Digest)

  const DOMAIN: Bytes := Ascii("secretbae/audit/anchor/v1")

  function AnchorInput(a: Anchor): Bytes {
    DOMAIN + Le(a.entries, 8) + a.tail
  }

  function EncodeAnchor(mac: Mac, key: Key32, a: Anchor): (r: Bytes)
    ensures |r| == 72
  {
    Le(a.entries, 8) + a.tail + mac(key, AnchorInput(a))
  }

  function DecodeAnchor(mac: Mac, key: Key32, encoded: Bytes): Option<Anchor> {
    if |encoded| != 72 then None
    else
      var a := Anchor(FromLe(encoded[..8]), encoded[8..40]);
      if mac(key, AnchorInput(a)) == encoded[40..] then Some(a) else None
  }

  function LoadAnchor(mac: Mac, key: Key32, stored: Option<Bytes>): Result<Option<Anchor>, AuditError> {
    match stored
    case None => Ok(None)
    case Some(encoded) =>
      match DecodeAnchor(mac, key, encoded)
      case Some(a) => Ok(Some(a))
      case None => Err(AnchorUnauthenticated)
  }

  lemma AnchorRoundTrips(mac: Mac, key: Key32, a: Anchor)
    requires a.entries < U64_LIMIT
    ensures DecodeAnchor(mac, key, EncodeAnchor(mac, key, a)) == Some(a)
  {
    var encoded := EncodeAnchor(mac, key, a);
    Le64RoundTrips(a.entries);
    assert encoded[..8] == Le(a.entries, 8);
    assert encoded[8..40] == a.tail;
    assert encoded[40..] == mac(key, AnchorInput(a));
  }

  // ----- the verifying walk -----

  /** `n` times `Seq::next`, which saturates. */
  function Advance(s: U64, n: nat): (r: U64)
    ensures s + n < U64_LIMIT ==> r == s + n
  {
    if s + n < U64_LIMIT then s + n else U64_LIMIT - 1
  }

  datatype WalkEnd = Clean(tail: Digest) | Stopped(verdict: Verdict) | Failed(error: AuditError)

  function CheckLink(mac: Mac, key: Key32, l: Link, expected: U64, prev: Digest): WalkEnd {
    match l
    case Unreadable => Failed(Sqlite)
    case Damaged(reported, what) => Stopped(Corrupt(if reported.Some? then reported.value else expected, what))
    case Link(seqNo, prevHash, entryHash, content) =>
      if seqNo != expected then Stopped(Gap(expected, seqNo))
      else if prevHash != prev then Stopped(BrokenLink(seqNo, prev, prevHash))
      else
        var computed := mac(key, prevHash + content);
        if entryHash != computed then Stopped(Modified(seqNo, entryHash, computed)) else Clean(entryHash)
  }

  function Walk(mac: Mac, key: Key32, links: seq<Link>, expected: U64, prev: Digest): (r: WalkEnd)
    ensures r.Stopped? ==> RowLevel(r.verdict)
  {
    if links == [] then Clean(prev)
    else
      var first := CheckLink(mac, key, links[0], expected, prev);
      if first.Clean? then Walk(mac, key, links[1..], Advance(expected, 1), first.tail) else first
  }

  /** The comparison with the anchor once every link has passed. */
  function Judge(mac: Mac, key: Key32, count: nat, last: Digest, anchor: Option<Bytes>): Result<Verdict, AuditError> {
    match LoadAnchor(mac, key, anchor)
    case Err(error) => Err(error)
    case Ok(None) => if count == 0 then Ok(Valid(0, None)) else Ok(AnchorInvalid)
    case Ok(Some(a)) =>
      if a.entries > count then Ok(Truncated(a.entries, count))
      else if a.entries != count || count == 0 || a.tail != last then Ok(AnchorInvalid)
      else Ok(Valid(count, Some(last)))
  }

  function VerifyLinks(mac: Mac, key: Key32, links: seq<Link>, anchor: Option<Bytes>): Result<Verdict, AuditError> {
    match Walk(mac, key, links, 1, Genesis())
    case Failed(error) => Err(error)
    case Stopped(verdict) => Ok(verdict)
    case Clean(last) => Judge(mac, key, |links|, last, anchor)
  }

  predicate IsValid(r: Result<Verdict, AuditError>) {
    r.Ok? && r.value.Valid?
  }

  /** A break at one row, as opposed to a mismatch between the whole chain and its anchor. */
  predicate RowLevel(v: Verdict) {
    v.Modified? || v.Gap? || v.BrokenLink? || v.Corrupt?
  }

  function BrokenSeq(v: Verdict): Option<nat> {
    match v
    case Modified(s, _, _) => Some(s)
    case BrokenLink(s, _, _) => Some(s)
    case Corrupt(s, _) => Some(s)
    case Gap(expected, _) => Some(expected)
    case _ => None
  }

  // ----- how walks compose -----

  /** Go on over `links` if the walk so far was clean. */
  function Resume(mac: Mac, key: Key32, sofar: WalkEnd, links: seq<Link>, expected: U64): WalkEnd {
    if sofar.Clean? then Walk(mac, key, links, expected, sofar.tail) else sofar
  }

  /** Walking two stretches is walking the first and, if it is clean, the second from where it ended. */
  lemma {:induction false} WalkConcat(mac: Mac, key: Key32, a: seq<Link>, b: seq<Link>, expected: U64, prev: Digest)
    ensures Walk(mac, key, a + b, expected, prev)
         == Resume(mac, key, Walk(mac, key, a, expected, prev), b, Advance(expected, |a|))
  {
    if a == [] {
      assert a + b == b;
    } else {
      assert (a + b)[1..] == a[1..] + b;
      var first := CheckLink(mac, key, a[0], expected, prev);
      if first.Clean? {
        WalkConcat(mac, key, a[1..], b, Advance(expected, 1), first.tail);
      }
    }
  }

  lemma WalkSnoc(mac: Mac, key: Key32, links: seq<Link>, l: Link)
    ensures var sofar := Walk(mac, key, links, 1, Genesis());
      Walk(mac, key, links + [l], 1, Genesis())
      == if sofar.Clean? then CheckLink(mac, key, l, Advance(1, |links|), sofar.tail) else sofar
  {
    WalkConcat(mac, key, links, [l], 1, Genesis());
    var sofar := Walk(mac, key, links, 1, Genesis());
    if sofar.Clean? {
      var next := CheckLink(mac, key, l, Advance(1, |links|), sofar.tail);
      assert next.Clean? ==> next == Clean(next.tail);
      assert Walk(mac, key, [l], Advance(1, |links|), sofar.tail) == next;
    }
  }

  /** Link `i` of a clean chain: numbered `i + 1`, pointing at its predecessor, hash recomputable. */
  predicate Chained(mac: Mac, key: Key32, links: seq<Link>, i: nat)
    requires i < |links|
  {
    && links[i].Link?
    && links[i].seqNo == i + 1
    && links[i].prevHash == TailOf(links[..i])
    && links[i].entryHash == mac(key, links[i].prevHash + links[i].content)
  }

  /** Where the chain stands after `links`. */
  function TailOf(links: seq<Link>): Digest {
    if links == [] || !links[|links| - 1].Link? then Genesis() else links[|links| - 1].entryHash
  }

  /** The walk is clean exactly when every link is chained. */
  lemma {:induction false} CleanMeansChained(mac: Mac, key: Key32, links: seq<Link>)
    ensures var end := Walk(mac, key, links, 1, Genesis());
      end.Clean? <==> forall i :: 0 <= i < |links| ==> Chained(mac, key, links, i)
    ensures var end := Walk(mac, key, links, 1, Genesis());
      end.Clean? ==> end.tail == TailOf(links) && |links| <= I64_MAX
  {
    if links != [] {
      var n := |links| - 1;
      var (init, l) := (links[..n], links[n]);
      assert links == init + [l];
      WalkSnoc(mac, key, init, l);
      CleanMeansChained(mac, key, init);
      assert forall i :: 0 <= i < n ==> links[..i] == init[..i];
      assert forall i :: 0 <= i < n ==> (Chained(mac, key, links, i) <==> Chained(mac, key, init, i));
      if Walk(mac, key, init, 1, Genesis()).Clean? {
        assert Walk(mac, key, links, 1, Genesis()).Clean? <==> Chained(mac, key, links, n);
      }
    }
  }

  lemma CleanPrefix(mac: Mac, key: Key32, links: seq<Link>, k: nat)
    requires Walk(mac, key, links, 1, Genesis()).Clean?
    requires k <= |links| && |links| <= I64_MAX
    ensures Walk(mac, key, links[..k], 1, Genesis()) == Clean(TailOf(links[..k]))
  {
    assert links == links[..k] + links[k..];
    WalkConcat(mac, key, links[..k], links[k..], 1, Genesis());
    CleanMeansChained(mac, key, links[..k]);
  }

  /** A clean prefix followed by a link that fails: the walk ends with that link's complaint. */
  lemma WalkStopsAt(mac: Mac, key: Key32, links: seq<Link>, i: nat)
    requires i < |links|
    requires Walk(mac, key, links[..i], 1, Genesis()).Clean?
    ensures var here := CheckLink(mac, key, links[i], Advance(1, i), Walk(mac, key, links[..i], 1, Genesis()).tail);
      !here.Clean? ==> Walk(mac, key, links, 1, Genesis()) == here
  {
    assert links[..i + 1] == links[..i] + [links[i]];
    WalkSnoc(mac, key, links[..i], links[i]);
    assert links == links[..i + 1] + links[i + 1..];
    WalkConcat(mac, key, links[..i + 1], links[i + 1..], 1, Genesis());
  }
}
