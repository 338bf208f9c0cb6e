/** What the decoder makes of an encoded name. */
module MdnsRoundTrip {
  import opened MdnsName
  import opened MdnsEncode

  /** A label whose length byte is neither the root nor a pointer. RFC 1035 stops at 63 bytes; the
      code accepts up to 191. */
  predicate Plain(l: Label) {
    0 < |l| < 0xc0 && DOT !in l
  }

  ghost predicate AllPlain(labels: seq<Label>) {
    forall l :: l in labels ==> Plain(l)
  }

  // ----- Text form

  lemma {:induction false} FirstDotAt(a: seq<Byte>, rest: seq<Byte>)
    requires DOT !in a && (rest == [] || rest[0] == DOT)
    ensures FirstDot(a + rest) == |a|
    decreases |a|
  {
    if a == [] {
      assert a + rest == rest;
    } else {
      assert (a + rest)[1..] == a[1..] + rest;
      FirstDotAt(a[1..], rest);
    }
  }

  lemma SplitOnly(first: seq<Byte>)
    requires DOT !in first && first != []
    ensures Split(first) == [first]
  {
    hide FirstDot;
    FirstDotAt(first, []);
    assert first + [] == first && first[..|first|] == first;
    assert AfterDot(first) == [] && Split([]) == [];
  }

  lemma SplitFirst(first: seq<Byte>, rest: seq<Byte>)
    requires DOT !in first
    ensures Split(first + ([DOT] + rest)) == [first] + Split(rest)
  {
    hide FirstDot;
    var text := first + ([DOT] + rest);
    FirstDotAt(first, [DOT] + rest);
    assert text[..|first|] == first;
    assert AfterDot(text) == rest by {
      assert text[|first| + 1..] == rest;
    }
  }

  /** A name is split at its dots, and empty pieces count, up to a final dot. */
  lemma {:induction false} SplitPieces(pieces: seq<Label>)
    requires pieces != [] && (forall l :: l in pieces ==> DOT !in l) && pieces[|pieces| - 1] != []
    ensures Split(Join(pieces)) == pieces
    decreases |pieces|
  {
    hide Split;
    assert DOT !in pieces[0];
    if |pieces| == 1 {
      SplitOnly(pieces[0]);
    } else {
      SplitPieces(pieces[1..]);
      SplitFirst(pieces[0], Join(pieces[1..]));
      assert pieces[0] + [DOT] + Join(pieces[1..]) == pieces[0] + ([DOT] + Join(pieces[1..]));
      assert pieces == [pieces[0]] + pieces[1..];
    }
  }

  lemma SplitJoin(labels: seq<Label>)
    requires labels != [] && AllPlain(labels)
    ensures Split(Join(labels)) == labels
  {
    forall l | l in labels ensures DOT !in l {
      assert Plain(l);
    }
    assert Plain(labels[|labels| - 1]);
    SplitPieces(labels);
  }

  lemma {:induction false} JoinShape(labels: seq<Label>)
    requires labels != [] && AllPlain(labels)
    ensures Join(labels) != [] && Join(labels)[|Join(labels)| - 1] != DOT
    ensures |Encode(labels)| == |Join(labels)| + 2
    ensures Dotted(labels) == Join(labels) + [DOT]
    decreases |labels|
  {
    var first := labels[0];
    assert Plain(first);
    if |labels| == 1 {
      assert first[|first| - 1] in first;
      assert labels[1..] == [] && Encode([]) == [0] && Dotted([]) == [];
    } else {
      JoinShape(labels[1..]);
      assert Join(labels) == first + [DOT] + Join(labels[1..]);
      assert first + [DOT] + (Join(labels[1..]) + [DOT]) == Join(labels) + [DOT];
    }
  }

  lemma StripDotJoin(labels: seq<Label>)
    requires labels != [] && AllPlain(labels)
    ensures StripDot(Join(labels)) == Join(labels)
    ensures StripDot(Join(labels) + [DOT]) == Join(labels)
  {
    JoinShape(labels);
    assert (Join(labels) + [DOT])[..|Join(labels)|] == Join(labels);
  }

  // ----- Wire form

  /** The encoded labels stand at offset `o` of the packet. */
  predicate EncodedAt(buf: seq<Byte>, o: nat, labels: seq<Label>) {
    o + |Encode(labels)| <= |buf| && buf[o..o + |Encode(labels)|] == Encode(labels)
  }

  lemma EncodedFirst(buf: seq<Byte>, o: nat, labels: seq<Label>)
    requires EncodedAt(buf, o, labels) && AllPlain(labels)
    ensures o < |buf|
    ensures labels == [] ==> buf[o] == 0
    ensures labels != [] ==>
      var n := |labels[0]|;
      && n == buf[o] && 0 < n < 0xc0 && o + 1 + n <= |buf| && buf[o + 1..o + 1 + n] == labels[0]
      && EncodedAt(buf, o + 1 + n, labels[1..])
  {
    var wire := Encode(labels);
    assert buf[o] == buf[o..o + |wire|][0];
    if labels != [] {
      assert Plain(labels[0]);
      var n := |labels[0]|;
      assert wire == [n] + labels[0] + Encode(labels[1..]);
      hide Encode;
      SliceParts(buf, o, n, labels[0], Encode(labels[1..]));
    }
  }

  lemma SliceParts(buf: seq<Byte>, o: nat, b: Byte, first: seq<Byte>, rest: seq<Byte>)
    requires o + 1 + |first| + |rest| <= |buf|
    requires buf[o..o + 1 + |first| + |rest|] == [b] + first + rest
    ensures buf[o] == b && buf[o + 1..o + 1 + |first|] == first
    ensures buf[o + 1 + |first|..o + 1 + |first| + |rest|] == rest
  {
    var whole := buf[o..o + 1 + |first| + |rest|];
    assert forall k :: 0 <= k < |whole| ==> whole[k] == buf[o + k];
    assert forall k :: 0 <= k < |first| ==> whole[1 + k] == first[k];
    assert forall k :: 0 <= k < |rest| ==> whole[1 + |first| + k] == rest[k];
  }

  lemma EncodedSubstring(buf: seq<Byte>, o: nat, labels: seq<Label>)
    requires EncodedAt(buf, o, labels) && AllPlain(labels)
    ensures NextSubstring(buf, o)
            == if labels == [] then Substring(o, 0, false) else Substring(o + 1, |labels[0]|, false)
  {
    hide EncodedAt;
    EncodedFirst(buf, o, labels);
  }

  lemma {:induction false} WalkEncoded(buf: seq<Byte>, o: nat, labels: seq<Label>, budget: nat)
    requires EncodedAt(buf, o, labels) && AllPlain(labels)
    ensures |labels| < budget ==> WalkFrom(buf, o, budget) == Walk(labels, true)
    ensures |labels| < budget ==> SkipFrom(buf, o, budget) == Some(o + |Encode(labels)|)
    ensures |labels| >= budget ==> !WalkFrom(buf, o, budget).complete
    decreases budget
  {
    hide EncodedAt, NextSubstring, Encode;
    EncodedFirst(buf, o, labels);
    EncodedSubstring(buf, o, labels);
    EncodeLength(labels);
    if labels != [] {
      var n := |labels[0]|;
      if budget > 0 {
        WalkEncoded(buf, o + 1 + n, labels[1..], budget - 1);
        assert labels == [labels[0]] + labels[1..];
      }
    }
  }

  lemma EncodeLength(labels: seq<Label>)
    ensures labels == [] ==> |Encode(labels)| == 1
    ensures labels != [] ==> |Encode(labels)| == 1 + |labels[0]| + |Encode(labels[1..])|
  {
  }

  /** Name round trip. A name of 1 to 64 labels, with or without its final dot, is encoded into its
      length (without that dot) plus 2 bytes; wherever StringMake has put them, StringExtract gives
      back the labels, each followed by a dot, and the end offset StringMake returned. With more
      than 64 labels, encoding still works but the result cannot be decoded. */
  lemma NameRoundTrip(labels: seq<Label>, name: seq<Byte>, before: seq<Byte>, start: nat)
    requires labels != [] && AllPlain(labels)
    requires name == Join(labels) || name == Join(labels) + [DOT]
    requires start + |Join(labels)| + 2 <= |before|
    ensures
      var wire := Encode(Split(StripDot(name)));
      && |wire| == |Join(labels)| + 2
      && var packet := Written(before, start, wire);
      && (|labels| <= 64 ==>
        && WalkName(packet, start) == Walk(labels, true)
        && Dotted(labels) == Join(labels) + [DOT]
        && SkipName(packet, start) == Some(start + |wire|))
      && (|labels| > 64 ==> !WalkName(packet, start).complete)
  {
    hide Split, StripDot, Join, Encode, WalkFrom, SkipFrom;
    StripDotJoin(labels);
    SplitJoin(labels);
    JoinShape(labels);
    var wire := Encode(labels);
    var packet := Written(before, start, wire);
    assert packet[start..start + |wire|] == wire;
    WalkEncoded(packet, start, labels, MAX_LABELS + 1);
  }
}
