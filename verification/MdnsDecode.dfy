/** The name decoder of src/mdns.c in its own form: loops over offsets, and a caller's buffer that is
    written in place. A packet is a byte sequence of exactly `size` bytes, so every read is below it. */
module MdnsDecode {
  import opened MdnsName
  import opened Numbers

  /** `text` cut to the length of `old` and written over its beginning. */
  function Overlay(before: seq<Byte>, text: seq<Byte>): (r: seq<Byte>)
    ensures |r| == |before|
  {
    if |text| <= |before| then text + before[|text|..] else text[..|before|]
  }

  /** mdns_get_next_substring */
  method GetNextSubstring(buf: seq<Byte>, start: nat) returns (r: Substring)
    ensures r == NextSubstring(buf, start)
  {
    var offset: nat := start;
    if offset >= |buf| {
      return Invalid;
    }
    if buf[offset] == 0 {
      return Substring(offset, 0, false);
    }
    var recursion: nat, ref := 0, false;
    while IsPointer(buf[offset])
      invariant offset < |buf| && recursion <= MAX_HOPS
      invariant Chase(buf, start, MAX_HOPS) == Chase(buf, offset, MAX_HOPS - recursion)
      invariant ref == (recursion > 0)
      invariant recursion == 0 ==> offset == start
      invariant recursion > 0 ==> IsPointer(buf[start])
      decreases MAX_HOPS - recursion
    {
      if |buf| < offset + 2 {
        return Invalid;
      }
      offset := Target(buf, offset);
      if offset >= |buf| {
        return Invalid;
      }
      ref := true;
      recursion := recursion + 1;
      if recursion > MAX_HOPS {
        return Invalid;
      }
    }
    var length := buf[offset];
    offset := offset + 1;
    if |buf| < offset + length {
      return Invalid;
    }
    return Substring(offset, length, ref);
  }

  /** mdns_string_skip: the offset is an in-out parameter, untouched on failure. */
  method StringSkip(buf: seq<Byte>, start: nat) returns (ok: bool, offset: nat)
    ensures ok <==> SkipName(buf, start).Some?
    ensures offset == if ok then SkipName(buf, start).value else start
  {
    hide NextSubstring;
    offset := start;
    var cur: nat, counter: nat := start, 0;
    while true
      invariant counter <= MAX_LABELS + 1
      invariant SkipName(buf, start) == SkipFrom(buf, cur, MAX_LABELS + 1 - counter)
      invariant offset == start
      decreases MAX_LABELS + 1 - counter
    {
      var substr := GetNextSubstring(buf, cur);
      if substr.Invalid? {
        return false, offset;
      }
      counter := counter + 1;
      if counter - 1 > MAX_LABELS {
        return false, offset;
      }
      if substr.ref {
        return true, cur + 2;
      }
      cur := substr.offset + substr.length;
      if substr.length == 0 {
        break;
      }
    }
    return true, cur + 1;
  }

  lemma DottedSnoc(labels: seq<Label>, piece: Label)
    ensures Dotted(labels + [piece]) == Dotted(labels) + piece + [DOT]
  {
    if labels == [] {
      assert [] + [piece] == [piece];
    } else {
      assert (labels + [piece])[1..] == labels[1..] + [piece];
      DottedSnoc(labels[1..], piece);
    }
  }

  /** One label and its dot written after `text`, as far as the buffer reaches. */
  method AppendLabel(str: array<Byte>, used: nat, piece: seq<Byte>, ghost before: seq<Byte>, ghost text: seq<Byte>)
    returns (newUsed: nat)
    requires used == Min(str.Length, |text|)
    requires |before| == str.Length && str[..] == Overlay(before, text)
    modifies str
    ensures newUsed == Min(str.Length, |text + piece + [DOT]|)
    ensures str[..] == Overlay(before, text + piece + [DOT])
  {
    var remain := str.Length - used;
    var toCopy := if |piece| < remain then |piece| else remain;
    forall i | 0 <= i < toCopy { str[used + i] := piece[i]; }
    newUsed := used + toCopy;
    remain := remain - toCopy;
    if remain > 0 {
      str[newUsed] := DOT;
      newUsed := newUsed + 1;
    }
  }

  /** The labels already seen, and a walk from `cur` for the others, make up the whole walk. */
  ghost predicate Remaining(buf: seq<Byte>, start: nat, cur: nat, budget: nat, done: seq<Label>) {
    var rest := WalkFrom(buf, cur, budget);
    WalkName(buf, start) == Walk(done + rest.labels, rest.complete)
  }

  lemma RemainingStops(buf: seq<Byte>, start: nat, cur: nat, budget: nat, done: seq<Label>)
    requires Remaining(buf, start, cur, budget, done)
    requires
      var r := NextSubstring(buf, cur);
      r.Invalid? || budget == 0 || r.length == 0
    ensures WalkName(buf, start) == Walk(done, NextSubstring(buf, cur).Substring? && budget > 0)
  {
    hide NextSubstring, WalkName;
    assert WalkFrom(buf, cur, budget).labels == [];
    assert done + [] == done;
  }

  lemma RemainingStep(buf: seq<Byte>, start: nat, cur: nat, budget: nat, done: seq<Label>)
    requires Remaining(buf, start, cur, budget, done) && budget > 0
    requires NextSubstring(buf, cur).Substring? && NextSubstring(buf, cur).length > 0
    ensures
      var r := NextSubstring(buf, cur);
      Remaining(buf, start, r.offset + r.length, budget - 1, done + [buf[r.offset..r.offset + r.length]])
  {
    hide NextSubstring, WalkName;
    var r := NextSubstring(buf, cur);
    var piece := buf[r.offset..r.offset + r.length];
    var rest := WalkFrom(buf, r.offset + r.length, budget - 1).labels;
    assert done + ([piece] + rest) == done + [piece] + rest;
  }

  /** mdns_string_extract. The first `capacity` bytes of the dotted labels are written, and nothing
      else, even when the walk fails half way; then the result is empty and the offset is untouched. */
  method StringExtract(buf: seq<Byte>, start: nat, str: array<Byte>) returns (length: nat, offset: nat)
    modifies str
    ensures str[..] == Overlay(old(str[..]), Dotted(WalkName(buf, start).labels))
    ensures WalkName(buf, start).complete ==>
      length == Min(str.Length, |Dotted(WalkName(buf, start).labels)|)
      && SkipName(buf, start) == Some(offset)
    ensures !WalkName(buf, start).complete ==> length == 0 && offset == start
  {
    hide NextSubstring, Remaining, Overlay, WalkFrom, WalkName, SkipName;
    var cur: nat, counter: nat, dst: nat := start, 0, 0;
    var end: Option<nat> := None;
    ghost var done: seq<Label> := [];
    ghost var before := str[..];
    length, offset := 0, start;
    NothingDone(buf, start, before);
    while true
      invariant counter <= MAX_LABELS + 1
      invariant Remaining(buf, start, cur, MAX_LABELS + 1 - counter, done)
      invariant dst == Min(str.Length, |Dotted(done)|) && str[..] == Overlay(before, Dotted(done))
      invariant end.None? ==> SkipName(buf, start) == SkipFrom(buf, cur, MAX_LABELS + 1 - counter)
      invariant end.Some? ==> SkipName(buf, start) == end
      invariant length == 0 && offset == start
      decreases MAX_LABELS + 1 - counter
    {
      var substr := GetNextSubstring(buf, cur);
      ghost var budget := MAX_LABELS + 1 - counter;
      if substr.Invalid? || budget == 0 || substr.length == 0 {
        RemainingStops(buf, start, cur, budget, done);
      } else {
        RemainingStep(buf, start, cur, budget, done);
      }
      if substr.Invalid? {
        return;
      }
      counter := counter + 1;
      if counter - 1 > MAX_LABELS {
        return;
      }
      if substr.ref && end.None? {
        end := Some(cur + 2);
      }
      if substr.length != 0 {
        ghost var text := Dotted(done);
        var piece := buf[substr.offset..substr.offset + substr.length];
        dst := AppendLabel(str, dst, piece, before, text);
        DottedSnoc(done, piece);
        done := done + [piece];
      }
      cur := substr.offset + substr.length;
      if substr.length == 0 {
        break;
      }
    }
    if end.None? {
      end := Some(cur + 1);
    }
    offset := end.value;
    length := dst;
  }

  lemma NothingDone(buf: seq<Byte>, start: nat, before: seq<Byte>)
    ensures Remaining(buf, start, start, MAX_LABELS + 1, [])
    ensures before == Overlay(before, Dotted([]))
    ensures SkipName(buf, start) == SkipFrom(buf, start, MAX_LABELS + 1)
  {
    assert [] + WalkName(buf, start).labels == WalkName(buf, start).labels;
  }
}
