/** What the verifier can and cannot be made to accept, for chains of every length and every keyed hash. */
module TamperEvidence {
  import opened ByteStrings
  import opened HashChain

  /** Two different hash inputs, both actually on disk at the same position, with one digest. */
  ghost predicate CollisionAt(mac: Mac, key: Key32, a: Link, b: Link) {
    && a.Link? && b.Link?
    && a.prevHash + a.content != b.prevHash + b.content
    && mac(key, a.prevHash + a.content) == mac(key, b.prevHash + b.content)
  }

  ghost predicate CollisionIn(mac: Mac, key: Key32, a: seq<Link>, b: seq<Link>) {
    exists i :: 0 <= i < |a| && i < |b| && CollisionAt(mac, key, a[i], b[i])
  }

  ghost predicate AllChained(mac: Mac, key: Key32, links: seq<Link>) {
    forall i :: 0 <= i < |links| ==> Chained(mac, key, links, i)
  }

  /** Backward induction: chains that agree on one hash agree on everything before it. */
  lemma {:induction false} AgreeBackwards(mac: Mac, key: Key32, a: seq<Link>, b: seq<Link>, k: nat)
    requires AllChained(mac, key, a) && AllChained(mac, key, b)
    requires k <= |a| && k <= |b|
    requires TailOf(a[..k]) == TailOf(b[..k])
    ensures a[..k] == b[..k] || CollisionIn(mac, key, a, b)
  {
    if k > 0 {
      var (x, y) := (a[k - 1], b[k - 1]);
      assert Chained(mac, key, a, k - 1) && Chained(mac, key, b, k - 1);
      if x.prevHash + x.content != y.prevHash + y.content {
        assert CollisionAt(mac, key, x, y);
      } else {
        assert x.prevHash == (x.prevHash + x.content)[..32] && y.prevHash == (y.prevHash + y.content)[..32];
        assert x.content == (x.prevHash + x.content)[32..] && y.content == (y.prevHash + y.content)[32..];
        assert x == y;
        AgreeBackwards(mac, key, a, b, k - 1);
        assert a[..k] == a[..k - 1] + [x] && b[..k] == b[..k - 1] + [y];
      }
    }
  }

  /** The verifier answers Valid exactly for a chained log whose anchor names its length and tail. */
  lemma ValidMeans(mac: Mac, key: Key32, links: seq<Link>, anchor: Option<Bytes>)
    ensures IsValid(VerifyLinks(mac, key, links, anchor)) <==>
      && AllChained(mac, key, links)
      && LoadAnchor(mac, key, anchor)
         == Ok(if links == [] then None else Some(Anchor(|links|, TailOf(links))))
  {
    CleanMeansChained(mac, key, links);
  }

  /**
   * Replace the rows under an anchor the daemon wrote after its `k`-th entry: the verifier accepts
   * only the first `k` rows themselves, or a collision sits at one of the positions.
   */
  lemma AnchoredRowsAreTheOriginals(
    mac: Mac, key: Key32, original: seq<Link>, k: nat, anchor: Option<Bytes>, replaced: seq<Link>)
    requires AllChained(mac, key, original)
    requires 1 <= k <= |original|
    requires LoadAnchor(mac, key, anchor) == Ok(Some(Anchor(k, TailOf(original[..k]))))
    requires IsValid(VerifyLinks(mac, key, replaced, anchor))
    ensures replaced == original[..k] || CollisionIn(mac, key, original, replaced)
  {
    ValidMeans(mac, key, replaced, anchor);
    assert Chained(mac, key, original, k - 1) && Chained(mac, key, replaced, k - 1);
    assert replaced == replaced[..k];
    AgreeBackwards(mac, key, original, replaced, k);
  }

  /** The same for the newest anchor: a valid log cannot have its rows replaced and stay valid. */
  lemma TamperEvident(mac: Mac, key: Key32, original: seq<Link>, anchor: Option<Bytes>, replaced: seq<Link>)
    requires IsValid(VerifyLinks(mac, key, original, anchor))
    requires IsValid(VerifyLinks(mac, key, replaced, anchor))
    ensures replaced == original || CollisionIn(mac, key, original, replaced)
  {
    ValidMeans(mac, key, original, anchor);
    ValidMeans(mac, key, replaced, anchor);
    if original != [] {
      assert original[..|original|] == original;
      AnchoredRowsAreTheOriginals(mac, key, original, |original|, anchor, replaced);
    }
  }

  // ----- exact classification -----

  lemma ModifiedIsNamed(mac: Mac, key: Key32, links: seq<Link>, anchor: Option<Bytes>, i: nat, content: Bytes)
    requires IsValid(VerifyLinks(mac, key, links, anchor))
    requires i < |links| && links[i].Link? && content != links[i].content
    ensures var l := links[i].(content := content);
      || VerifyLinks(mac, key, links[i := l], anchor)
         == Ok(Modified(i + 1, l.entryHash, mac(key, l.prevHash + content)))
      || CollisionAt(mac, key, links[i], l)
  {
    hide Judge, LoadAnchor;
    ValidMeans(mac, key, links, anchor);
    assert Chained(mac, key, links, i);
    var l := links[i].(content := content);
    var changed := links[i := l];
    CleanUpTo(mac, key, links, i);
    assert changed[..i] == links[..i];
    if mac(key, l.prevHash + content) == l.entryHash {
      assert (l.prevHash + content)[32..] == content && (l.prevHash + links[i].content)[32..] == links[i].content;
    } else {
      WalkStopsAt(mac, key, changed, i);
    }
  }

  lemma RelinkedIsNamed(mac: Mac, key: Key32, links: seq<Link>, anchor: Option<Bytes>, i: nat, prev: Digest)
    requires IsValid(VerifyLinks(mac, key, links, anchor))
    requires i < |links| && links[i].Link? && prev != links[i].prevHash
    ensures VerifyLinks(mac, key, links[i := links[i].(prevHash := prev)], anchor)
         == Ok(BrokenLink(i + 1, links[i].prevHash, prev))
  {
    hide Judge, LoadAnchor;
    ValidMeans(mac, key, links, anchor);
    assert Chained(mac, key, links, i);
    var changed := links[i := links[i].(prevHash := prev)];
    CleanUpTo(mac, key, links, i);
    assert changed[..i] == links[..i];
    WalkStopsAt(mac, key, changed, i);
  }

  /** Deleting any stretch that is not at the end. */
  lemma DeletedStretchIsAGap(mac: Mac, key: Key32, links: seq<Link>, anchor: Option<Bytes>, i: nat, j: nat)
    requires IsValid(VerifyLinks(mac, key, links, anchor))
    requires i < j < |links|
    ensures VerifyLinks(mac, key, links[..i] + links[j..], anchor) == Ok(Gap(i + 1, j + 1))
  {
    hide Judge, LoadAnchor, Walk;
    ValidMeans(mac, key, links, anchor);
    assert Chained(mac, key, links, j);
    var cut := links[..i] + links[j..];
    assert cut[i] == links[j];
    CleanUpTo(mac, key, links, i);
    assert cut[..i] == links[..i];
    WalkStopsAt(mac, key, cut, i);
  }

  lemma DeletedTailIsTruncated(mac: Mac, key: Key32, links: seq<Link>, anchor: Option<Bytes>, kept: nat)
    requires IsValid(VerifyLinks(mac, key, links, anchor))
    requires kept < |links|
    ensures VerifyLinks(mac, key, links[..kept], anchor) == Ok(Truncated(|links|, kept))
  {
    ValidMeans(mac, key, links, anchor);
    CleanUpTo(mac, key, links, kept);
  }

  lemma DeletedAnchorIsInvalid(mac: Mac, key: Key32, links: seq<Link>, anchor: Option<Bytes>)
    requires IsValid(VerifyLinks(mac, key, links, anchor))
    ensures VerifyLinks(mac, key, links, None) == if links == [] then Ok(Valid(0, None)) else Ok(AnchorInvalid)
  {
  }

  /** Any other anchor over a valid log: an older or foreign one is no longer valid, a forged one is an error. */
  lemma ReplacedAnchorIsNoticed(mac: Mac, key: Key32, links: seq<Link>, anchor: Option<Bytes>, other: Bytes)
    requires IsValid(VerifyLinks(mac, key, links, anchor)) && Some(other) != anchor
    ensures var r := VerifyLinks(mac, key, links, Some(other));
      match DecodeAnchor(mac, key, other)
      case None => r == Err(AnchorUnauthenticated)
      case Some(a) =>
        && (a.entries > |links| <==> r == Ok(Truncated(a.entries, |links|)))
        && (a.entries <= |links| <==> r == Ok(AnchorInvalid))
  {
    ValidMeans(mac, key, links, anchor);
    CleanMeansChained(mac, key, links);
    var a := DecodeAnchor(mac, key, other);
    if a.Some? && links != [] && a.value == Anchor(|links|, TailOf(links)) {
      DecodedIsEncoded(mac, key, other);
      DecodedIsEncoded(mac, key, anchor.value);
    }
  }

  lemma DecodedIsEncoded(mac: Mac, key: Key32, encoded: Bytes)
    requires DecodeAnchor(mac, key, encoded).Some?
    ensures encoded == EncodeAnchor(mac, key, DecodeAnchor(mac, key, encoded).value)
  {
    LeOfFromLe(encoded[..8]);
    assert encoded == encoded[..8] + encoded[8..40] + encoded[40..];
  }

  /** A row that no longer parses is reported as Corrupt with what is wrong, if its columns fit at all. */
  lemma DamagedIsNamed(mac: Mac, key: Key32, links: seq<Link>, anchor: Option<Bytes>, i: nat, damaged: Link)
    requires IsValid(VerifyLinks(mac, key, links, anchor))
    requires i < |links| && !damaged.Link?
    ensures VerifyLinks(mac, key, links[i := damaged], anchor)
         == if damaged.Unreadable? then Err(Sqlite)
            else Ok(Corrupt(if damaged.reported.Some? then damaged.reported.value else i + 1, damaged.what))
  {
    hide Judge, LoadAnchor, Walk;
    ValidMeans(mac, key, links, anchor);
    var changed := links[i := damaged];
    assert changed[..i] == links[..i];
    CleanUpTo(mac, key, links, i);
    WalkStopsAt(mac, key, changed, i);
  }

  lemma CleanUpTo(mac: Mac, key: Key32, links: seq<Link>, i: nat)
    requires AllChained(mac, key, links) && i <= |links|
    ensures |links| <= I64_MAX
    ensures Walk(mac, key, links[..i], 1, Genesis()) == Clean(TailOf(links[..i]))
    ensures i < |links| ==> links[i].Link? && links[i].prevHash == TailOf(links[..i])
  {
    CleanMeansChained(mac, key, links);
    CleanPrefix(mac, key, links, i);
    if i < |links| {
      assert Chained(mac, key, links, i);
    }
  }

  /** Whatever row a verdict blames, everything before it is a verified prefix. */
  lemma {:induction false} BlamedAfterVerifiedPrefix(mac: Mac, key: Key32, links: seq<Link>, anchor: Option<Bytes>)
    returns (i: nat)
    requires var r := VerifyLinks(mac, key, links, anchor); r.Ok? && RowLevel(r.value)
    ensures i < |links| && AllChained(mac, key, links[..i]) && !Chained(mac, key, links, i)
    ensures var v := VerifyLinks(mac, key, links, anchor).value;
      BrokenSeq(v) == Some(if links[i].Damaged? && links[i].reported.Some? then links[i].reported.value else i + 1)
  {
    i := FirstFailure(mac, key, links);
    CleanMeansChained(mac, key, links[..i]);
    WalkStopsAt(mac, key, links, i);
  }

  lemma {:induction false} FirstFailure(mac: Mac, key: Key32, links: seq<Link>) returns (i: nat)
    requires !Walk(mac, key, links, 1, Genesis()).Clean?
    ensures i < |links| && i < I64_MAX + 1
    ensures Walk(mac, key, links[..i], 1, Genesis()) == Clean(TailOf(links[..i]))
    ensures !CheckLink(mac, key, links[i], Advance(1, i), TailOf(links[..i])).Clean?
    ensures Walk(mac, key, links, 1, Genesis()) == CheckLink(mac, key, links[i], Advance(1, i), TailOf(links[..i]))
  {
    var n := |links| - 1;
    assert links == links[..n] + [links[n]];
    WalkSnoc(mac, key, links[..n], links[n]);
    CleanMeansChained(mac, key, links[..n]);
    if Walk(mac, key, links[..n], 1, Genesis()).Clean? {
      i := n;
    } else {
      i := FirstFailure(mac, key, links[..n]);
      assert links[..n][..i] == links[..i];
    }
  }

  // ----- appends -----

  /** No link appended after a row-level break, and no anchor written with it, hides the break. */
  lemma AppendsNeverRepair(
    mac: Mac, key: Key32, links: seq<Link>, anchor: Option<Bytes>, more: seq<Link>, newAnchor: Option<Bytes>)
    requires var r := VerifyLinks(mac, key, links, anchor); r.Ok? && RowLevel(r.value)
    ensures VerifyLinks(mac, key, links + more, newAnchor) == VerifyLinks(mac, key, links, anchor)
  {
    WalkConcat(mac, key, links, more, 1, Genesis());
  }

  /** A new link keeps a valid chain valid exactly when it takes the next number, the tail and the right hash. */
  lemma ExtendedIsValid(mac: Mac, key: Key32, links: seq<Link>, anchor: Option<Bytes>, l: Link, newAnchor: Option<Bytes>)
    requires IsValid(VerifyLinks(mac, key, links, anchor))
    requires l.Link? && l.prevHash == TailOf(links) && l.entryHash == mac(key, l.prevHash + l.content)
    requires newAnchor == Some(EncodeAnchor(mac, key, Anchor(|links| + 1, l.entryHash)))
    ensures IsValid(VerifyLinks(mac, key, links + [l], newAnchor)) <==> l.seqNo == |links| + 1
    ensures l.seqNo == |links| + 1 ==>
      VerifyLinks(mac, key, links + [l], newAnchor) == Ok(Valid(|links| + 1, Some(l.entryHash)))
    ensures l.seqNo != |links| + 1 ==>
      VerifyLinks(mac, key, links + [l], newAnchor) == Ok(Gap(|links| + 1, l.seqNo))
  {
    ValidMeans(mac, key, links, anchor);
    CleanMeansChained(mac, key, links);
    WalkSnoc(mac, key, links, l);
    AnchorRoundTrips(mac, key, Anchor(|links| + 1, l.entryHash));
  }

  /** A link numbered anything but next, put after a clean prefix, is a gap whatever the anchor. */
  lemma MisnumberedIsAGap(mac: Mac, key: Key32, links: seq<Link>, kept: nat, l: Link, anchor: Option<Bytes>)
    requires AllChained(mac, key, links) && kept <= |links|
    requires l.Link? && l.seqNo != kept + 1
    ensures VerifyLinks(mac, key, links[..kept] + [l], anchor) == Ok(Gap(kept + 1, l.seqNo))
  {
    hide Judge, LoadAnchor;
    CleanUpTo(mac, key, links, kept);
    WalkSnoc(mac, key, links[..kept], l);
  }

  lemma FirstLinkRejected(mac: Mac, key: Key32, links: seq<Link>, anchor: Option<Bytes>)
    requires links != [] && links[0].Link? && links[0].seqNo == 1 && links[0].prevHash == Genesis()
    requires links[0].entryHash != mac(key, Genesis() + links[0].content)
    ensures VerifyLinks(mac, key, links, anchor)
         == Ok(Modified(1, links[0].entryHash, mac(key, Genesis() + links[0].content)))
  {
  }

  ghost predicate KeysAgreeOnLinks(mac: Mac, k1: Key32, k2: Key32, links: seq<Link>) {
    forall i :: 0 <= i < |links| && links[i].Link? ==>
      mac(k1, links[i].prevHash + links[i].content) == mac(k2, links[i].prevHash + links[i].content)
  }

  /** A chain valid under one key is valid under another exactly when both hash every link and the anchor alike. */
  lemma ValidUnderTwoKeys(mac: Mac, k1: Key32, k2: Key32, links: seq<Link>, anchor: Option<Bytes>)
    requires IsValid(VerifyLinks(mac, k1, links, anchor))
    ensures IsValid(VerifyLinks(mac, k2, links, anchor)) <==>
      && KeysAgreeOnLinks(mac, k1, k2, links)
      && (links != [] ==>
            var input := AnchorInput(Anchor(|links|, TailOf(links)));
            mac(k1, input) == mac(k2, input))
  {
    ValidMeans(mac, k1, links, anchor);
    ValidMeans(mac, k2, links, anchor);
    forall i | 0 <= i < |links|
      ensures links[i].Link?
      ensures Chained(mac, k2, links, i) <==>
        mac(k1, links[i].prevHash + links[i].content) == mac(k2, links[i].prevHash + links[i].content)
    {
      assert Chained(mac, k1, links, i);
    }
    AnchorUnderTwoKeys(mac, k1, k2, anchor);
  }

  lemma AnchorUnderTwoKeys(mac: Mac, k1: Key32, k2: Key32, anchor: Option<Bytes>)
    requires LoadAnchor(mac, k1, anchor).Ok?
    ensures var (a1, a2) := (LoadAnchor(mac, k1, anchor), LoadAnchor(mac, k2, anchor));
      if a1.value.None? then a2 == Ok(None)
      else a2 == if mac(k1, AnchorInput(a1.value.value)) == mac(k2, AnchorInput(a1.value.value)) then a1
                 else Err(AnchorUnauthenticated)
  {
  }

  /** A link and anchor written under another key than the one the chain is kept under. */
  lemma ExtendedUnderOtherKey(mac: Mac, kept: Key32, used: Key32, links: seq<Link>, anchor: Option<Bytes>, l: Link)
    requires IsValid(VerifyLinks(mac, kept, links, anchor)) && |links| < I64_MAX
    requires l.Link? && l.seqNo == |links| + 1 && l.prevHash == TailOf(links)
    requires l.entryHash == mac(used, l.prevHash + l.content)
    ensures var (input, a) := (l.prevHash + l.content, Anchor(|links| + 1, l.entryHash));
      VerifyLinks(mac, kept, links + [l], Some(EncodeAnchor(mac, used, a)))
      == if mac(used, input) != mac(kept, input) then Ok(Modified(|links| + 1, mac(used, input), mac(kept, input)))
         else if mac(used, AnchorInput(a)) != mac(kept, AnchorInput(a)) then Err(AnchorUnauthenticated)
         else Ok(Valid(|links| + 1, Some(l.entryHash)))
  {
    hide Judge, LoadAnchor, DecodeAnchor, EncodeAnchor;
    ValidMeans(mac, kept, links, anchor);
    CleanMeansChained(mac, kept, links);
    WalkSnoc(mac, kept, links, l);
    OtherKeysAnchor(mac, kept, used, Anchor(|links| + 1, l.entryHash));
  }

  lemma OtherKeysAnchor(mac: Mac, kept: Key32, used: Key32, a: Anchor)
    requires 0 < a.entries < U64_LIMIT
    ensures Judge(mac, kept, a.entries, a.tail, Some(EncodeAnchor(mac, used, a)))
         == if mac(used, AnchorInput(a)) != mac(kept, AnchorInput(a)) then Err(AnchorUnauthenticated)
            else Ok(Valid(a.entries, Some(a.tail)))
  {
    AnchorRoundTrips(mac, used, a);
    AnchorUnderTwoKeys(mac, used, kept, Some(EncodeAnchor(mac, used, a)));
  }
}
