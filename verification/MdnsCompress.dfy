/** The name encoder of src/mdns.c with a string table, and when the name it makes is the one given. */
module MdnsCompress {
  import opened MdnsName
  import opened MdnsEncode
  import opened MdnsRoundTrip
  import opened MdnsTable
  import opened Sequences

  /** Labels in wire form, without the root. */
  function LabelBytes(labels: seq<Label>): seq<Byte> {
    if labels == [] then [] else [|labels[0]| % 0x100] + labels[0] + LabelBytes(labels[1..])
  }

  /** mdns_string_make_ref: the offset with the two pointer bits set. */
  function Reference(offset: nat): (bytes: seq<Byte>)
    ensures |bytes| == 2 && IsPointer(bytes[0])
    ensures BigEndian(bytes, 0) % 0x4000 == offset % 0x4000
  {
    [0xc0 + offset % 0x4000 / 0x100, offset % 0x4000 % 0x100]
  }

  /** Where labels start when they are written from `start` on. */
  function Offsets(start: nat, labels: seq<Label>): (offsets: seq<nat>)
    ensures |offsets| == |labels|
    decreases |labels|
  {
    if labels == [] then [] else [start] + Offsets(start + 1 + |labels[0]|, labels[1..])
  }

  /** When the labels before i have been written, no offset the table holds leads to the others. */
  ghost predicate NothingOffered(before: seq<Byte>, start: nat, labels: seq<Label>, added: seq<nat>, i: nat)
    requires i <= |labels|
  {
    var done := LabelBytes(labels[..i]);
    && start + |done| <= |before|
    && forall o :: o in Held(added + Offsets(start, labels[..i])) ==>
         !Leads(Written(before, start, done), o, labels[i..])
  }

  /** The labels before k have been written, each after a search for it, and their offsets added. */
  ghost predicate Searched(
    before: seq<Byte>, start: nat, labels: seq<Label>, added: seq<nat>, k: nat, addedNow: seq<nat>)
  {
    && k <= |labels| && start + |LabelBytes(labels[..k])| <= |before|
    && addedNow == added + Offsets(start, labels[..k])
    && forall i :: 0 <= i < k ==> NothingOffered(before, start, labels, added, i)
  }

  // ----- One label more

  lemma LabelBytesFirst(labels: seq<Label>)
    ensures labels == [] ==> LabelBytes(labels) == []
    ensures labels != [] ==>
      LabelBytes(labels) == [|labels[0]| % 0x100] + labels[0] + LabelBytes(labels[1..])
  {
  }

  lemma {:induction false} LabelBytesSnoc(labels: seq<Label>, l: Label)
    ensures LabelBytes(labels + [l]) == LabelBytes(labels) + ([|l| % 0x100] + l)
    decreases |labels|
  {
    hide LabelBytes;
    LabelBytesFirst(labels);
    LabelBytesFirst(labels + [l]);
    if labels == [] {
      assert [] + [l] == [l];
      LabelBytesFirst([l][1..]);
    } else {
      LabelBytesSnoc(labels[1..], l);
      assert (labels + [l])[1..] == labels[1..] + [l];
      var first := [|labels[0]| % 0x100] + labels[0];
      Associative(first, LabelBytes(labels[1..]), [|l| % 0x100] + l);
    }
  }

  lemma OffsetsFirst(start: nat, labels: seq<Label>)
    requires labels != []
    ensures |LabelBytes(labels)| == 1 + |labels[0]| + |LabelBytes(labels[1..])|
    ensures Offsets(start, labels) == [start] + Offsets(start + 1 + |labels[0]|, labels[1..])
  {
  }

  lemma OffsetsOfOne(start: nat, l: Label)
    ensures Offsets(start, [] + [l]) == Offsets(start, []) + [start + |LabelBytes([])|]
  {
    assert [] + [l] == [l] && [l][1..] == [];
  }

  lemma {:induction false} OffsetsSnoc(start: nat, labels: seq<Label>, l: Label)
    ensures Offsets(start, labels + [l]) == Offsets(start, labels) + [start + |LabelBytes(labels)|]
    decreases |labels|
  {
    hide LabelBytes, Offsets;
    if labels == [] {
      OffsetsOfOne(start, l);
    } else {
      OffsetsFirst(start, labels);
      OffsetsFirst(start, labels + [l]);
      assert (labels + [l])[1..] == labels[1..] + [l];
      OffsetsSnoc(start + 1 + |labels[0]|, labels[1..], l);
    }
  }

  lemma NextLabel(labels: seq<Label>, k: nat, rest: seq<Byte>, start: nat)
    requires k <= |labels| && rest != [] && Split(rest) == labels[k..]
    ensures k < |labels| && labels[k] == rest[..FirstDot(rest)]
    ensures Split(AfterDot(rest)) == labels[k + 1..]
    ensures LabelBytes(labels[..k + 1]) == LabelBytes(labels[..k]) + ([|labels[k]| % 0x100] + labels[k])
    ensures Offsets(start, labels[..k + 1]) == Offsets(start, labels[..k]) + [start + |LabelBytes(labels[..k])|]
  {
    hide FirstDot, AfterDot, LabelBytes, Offsets;
    assert labels[k..][0] == labels[k] && labels[k..][1..] == labels[k + 1..];
    assert labels[..k + 1] == labels[..k] + [labels[k]];
    LabelBytesSnoc(labels[..k], labels[k]);
    OffsetsSnoc(start, labels[..k], labels[k]);
  }

  lemma NothingSearched(before: seq<Byte>, start: nat, labels: seq<Label>, added: seq<nat>)
    requires start <= |before|
    ensures LabelBytes(labels[..0]) == [] && before == Written(before, start, []) && labels[0..] == labels
    ensures Searched(before, start, labels, added, 0, added)
  {
  }

  lemma SearchedNext(before: seq<Byte>, start: nat, labels: seq<Label>, added: seq<nat>, k: nat, addedNow: seq<nat>)
    requires k < |labels| && Searched(before, start, labels, added, k, addedNow)
    requires start + |LabelBytes(labels[..k + 1])| <= |before|
    requires Offsets(start, labels[..k + 1]) == Offsets(start, labels[..k]) + [start + |LabelBytes(labels[..k])|]
    requires forall o :: o in Held(addedNow) ==>
      !Leads(Written(before, start, LabelBytes(labels[..k])), o, labels[k..])
    ensures Searched(before, start, labels, added, k + 1, addedNow + [start + |LabelBytes(labels[..k])|])
  {
    hide LabelBytes, Offsets, Written, Leads, Held;
    assert NothingOffered(before, start, labels, added, k);
  }

  lemma NoLabels(labels: seq<Label>, k: nat)
    requires k <= |labels| && labels[k..] == Split([])
    ensures k == |labels|
  {
    assert Split([]) == [];
  }

  // ----- The encoder

  /** The labels before k, and then a reference to an offset that leads to the others, or the root when
      there are no others. */
  ghost predicate Made(
    before: seq<Byte>, start: nat, labels: seq<Label>, k: nat, reference: Option<nat>, now: seq<Byte>, end: nat)
    requires k <= |labels|
  {
    var done := LabelBytes(labels[..k]);
    var last := if reference.Some? then Reference(reference.value) else [0];
    && end == start + |done + last| <= |before|
    && now == Written(before, start, done + last)
    && (reference.None? <==> k == |labels|)
    && (reference.Some? ==> Leads(Written(before, start, done), reference.value, labels[k..]))
  }

  /** The labels before k, and no room for what comes next. */
  ghost predicate OutOfRoom(
    before: seq<Byte>, start: nat, labels: seq<Label>, k: nat, reference: Option<nat>, now: seq<Byte>)
    requires k <= |labels|
  {
    var done := LabelBytes(labels[..k]);
    && start + |done| <= |before| && now == Written(before, start, done)
    && var room := |before| - (start + |done|);
    if reference.Some? then room < 2 else if k < |labels| then room <= |labels[k]| + 1 else room == 0
  }

  /** mdns_string_make with a string table. Labels are written, and their offsets added, until the table
      offers a place where the others already stand. */
  method StringMake(buffer: array<Byte>, start: nat, name: seq<Byte>, table: StringTable)
    returns (end: Option<nat>, ghost k: nat, ghost reference: Option<nat>)
    requires name != [] && start <= buffer.Length && table.Valid()
    modifies buffer, table, table.offset
    ensures table.Valid() && k <= |Split(StripDot(name))|
    ensures
      var labels := Split(StripDot(name));
      && Searched(old(buffer[..]), start, labels, old(table.added), k, table.added)
      && (reference.Some? ==> reference.value in Held(table.added))
      && if end.Some? then Made(old(buffer[..]), start, labels, k, reference, buffer[..], end.value)
         else OutOfRoom(old(buffer[..]), start, labels, k, reference, buffer[..])
  {
    hide FirstDot, AfterDot, Split, LabelBytes, Offsets, Written, Leads, Reference, StringTable.Valid, Searched,
      NothingOffered, Held;
    var length := |name|;
    if name[length - 1] == DOT {
      length := length - 1;
    }
    assert name[0..length] == StripDot(name);
    ghost var labels := Split(StripDot(name));
    ghost var before, added := buffer[..], table.added;
    NothingSearched(before, start, labels, added);
    k, reference := 0, None;
    var data, lastPos := start, 0;
    var remain := buffer.Length - data;
    while lastPos < length
      invariant lastPos <= length && k <= |labels| && table.Valid() && reference == None
      invariant data == start + |LabelBytes(labels[..k])| <= buffer.Length && remain == buffer.Length - data
      invariant Split(name[lastPos..length]) == labels[k..]
      invariant buffer[..] == Written(before, start, LabelBytes(labels[..k]))
      invariant Searched(before, start, labels, added, k, table.added)
    {
      var rest := name[lastPos..length];
      var subLength := FirstDot(rest);
      NextLabel(labels, k, rest, start);
      var found := table.Find(buffer[..], rest, subLength);
      if found.Some? {
        reference := found;
        end := MakeRef(buffer, data, found.value, before, start, LabelBytes(labels[..k]));
        return;
      }
      if remain <= subLength + 1 {
        return None, k, None;
      }
      WriteLabel(buffer, data, rest[..subLength], before, start, LabelBytes(labels[..k]));
      SearchedNext(before, start, labels, added, k, table.added);
      table.Add(data);
      k := k + 1;
      lastPos := NextPos(name, lastPos, length);
      data := data + subLength + 1;
      remain := buffer.Length - data;
    }
    assert name[lastPos..length] == [];
    NoLabels(labels, k);
    if remain == 0 {
      return None, k, None;
    }
    RootWritten(buffer[..], before, start, LabelBytes(labels[..k]));
    buffer[data] := 0;
    return Some(data + 1), k, None;
  }

  method MakeRef(
    buffer: array<Byte>, data: nat, offset: nat, ghost before: seq<Byte>, ghost start: nat, ghost done: seq<Byte>)
    returns (end: Option<nat>)
    requires |before| == buffer.Length && data == start + |done| <= buffer.Length
    requires buffer[..] == Written(before, start, done)
    modifies buffer
    ensures end == if buffer.Length - data < 2 then None else Some(data + 2)
    ensures buffer[..] == Written(before, start, if end.Some? then done + Reference(offset) else done)
  {
    if buffer.Length - data < 2 {
      return None;
    }
    var bytes := Reference(offset);
    buffer[data] := bytes[0];
    buffer[data + 1] := bytes[1];
    return Some(data + 2);
  }

  // ----- What the name stands for

  lemma NextThroughReference(buf: seq<Byte>, o: nat, target: nat)
    requires o + 2 <= |buf| && IsPointer(buf[o]) && Target(buf, o) == target
    requires target < |buf| && !IsPointer(buf[target])
    ensures
      var r, t := NextSubstring(buf, o), NextSubstring(buf, target);
      && (r.Invalid? <==> t.Invalid?)
      && (r.Substring? ==> r.length == t.length && (r.length > 0 ==> r.offset == t.offset))
  {
    hide Target;
    assert Chase(buf, target, MAX_HOPS) == Some(target);
    assert Chase(buf, o, MAX_HOPS) == Chase(buf, target, MAX_HOPS - 1) == Some(target);
  }

  /** The name a reference refers to is walked from the reference as from where it points. */
  lemma ThroughReference(buf: seq<Byte>, o: nat, target: nat, budget: nat)
    requires o + 2 <= |buf| && IsPointer(buf[o]) && Target(buf, o) == target
    requires target < |buf| && !IsPointer(buf[target])
    ensures WalkFrom(buf, o, budget) == WalkFrom(buf, target, budget)
  {
    hide NextSubstring, Target;
    NextThroughReference(buf, o, target);
  }

  lemma LabelSubstring(buf: seq<Byte>, o: nat)
    requires o < |buf| && 0 < buf[o] < 0xc0 && o + 1 + buf[o] <= |buf|
    ensures NextSubstring(buf, o) == Substring(o + 1, buf[o], false)
  {
  }

  lemma FrontFirst(buf: seq<Byte>, o: nat, front: seq<Label>)
    requires front != [] && 0 < |front[0]| < 0xc0
    requires o + |LabelBytes(front)| <= |buf| && buf[o..o + |LabelBytes(front)|] == LabelBytes(front)
    ensures
      var n := |front[0]|;
      && NextSubstring(buf, o) == Substring(o + 1, n, false) && buf[o + 1..o + 1 + n] == front[0]
      && o + 1 + n + |LabelBytes(front[1..])| == o + |LabelBytes(front)|
      && buf[o + 1 + n..o + |LabelBytes(front)|] == LabelBytes(front[1..])
  {
    hide LabelBytes, NextSubstring;
    LabelBytesFirst(front);
    SliceParts(buf, o, |front[0]|, front[0], LabelBytes(front[1..]));
    LabelSubstring(buf, o);
  }

  lemma WalkOne(buf: seq<Byte>, o: nat, l: Label, budget: nat)
    requires l != [] && budget > 0 && o + 1 + |l| <= |buf|
    requires NextSubstring(buf, o) == Substring(o + 1, |l|, false) && buf[o + 1..o + 1 + |l|] == l
    ensures
      var w := WalkFrom(buf, o + 1 + |l|, budget - 1);
      WalkFrom(buf, o, budget) == Walk([l] + w.labels, w.complete)
  {
    hide NextSubstring;
  }

  lemma NoLabelBytes(front: seq<Label>)
    requires front == []
    ensures LabelBytes(front) == []
  {
  }

  lemma {:induction false} WalkFront(buf: seq<Byte>, o: nat, front: seq<Label>, budget: nat)
    requires |front| <= budget && forall l :: l in front ==> 0 < |l| < 0xc0
    requires o + |LabelBytes(front)| <= |buf| && buf[o..o + |LabelBytes(front)|] == LabelBytes(front)
    ensures
      var w := WalkFrom(buf, o + |LabelBytes(front)|, budget - |front|);
      WalkFrom(buf, o, budget) == Walk(front + w.labels, w.complete)
    decreases |front|
  {
    hide NextSubstring, WalkFrom, LabelBytes;
    var w := WalkFrom(buf, o + |LabelBytes(front)|, budget - |front|);
    if front == [] {
      assert |LabelBytes(front)| == 0 by { NoLabelBytes(front); }
      assert front + w.labels == w.labels;
    } else {
      FrontFirst(buf, o, front);
      WalkOne(buf, o, front[0], budget);
      WalkFront(buf, o + 1 + |front[0]|, front[1..], budget - 1);
      assert [front[0]] + (front[1..] + w.labels) == front + w.labels;
    }
  }

  lemma {:induction false} EncodeIsLabelBytes(labels: seq<Label>)
    ensures Encode(labels) == LabelBytes(labels) + [0]
    decreases |labels|
  {
    if labels != [] {
      EncodeIsLabelBytes(labels[1..]);
    }
  }

  /** Without a reference, the encoder writes what it writes without a table. */
  lemma MadeInFull(
    before: seq<Byte>, start: nat, labels: seq<Label>, k: nat, now: seq<Byte>, end: nat)
    requires k <= |labels| && Made(before, start, labels, k, None, now, end)
    ensures end == start + |Encode(labels)| <= |before| && now == Written(before, start, Encode(labels))
  {
    hide LabelBytes, Encode, Written;
    assert labels[..k] == labels;
    EncodeIsLabelBytes(labels);
  }

  lemma WrittenParts(before: seq<Byte>, start: nat, done: seq<Byte>, last: seq<Byte>)
    requires |last| == 2 && start + |done + last| <= |before|
    ensures
      var now := Written(before, start, done + last);
      var o := start + |done|;
      o + 2 <= |now| && now[start..o] == done && now[o] == last[0] && now[o + 1] == last[1]
  {
    var now, text := Written(before, start, done + last), done + last;
    assert now == before[..start] + text + before[start + |text|..];
    assert forall j :: 0 <= j < |text| ==> now[start + j] == text[j];
    assert now[start + |done|] == text[|done|] && now[start + |done| + 1] == text[|done| + 1];
    assert now[start..start + |done|] == done;
  }

  lemma MadeParts(
    before: seq<Byte>, start: nat, labels: seq<Label>, k: nat, reference: nat, now: seq<Byte>, end: nat)
    requires k <= |labels| && Made(before, start, labels, k, Some(reference), now, end)
    ensures
      var done := LabelBytes(labels[..k]);
      var o := start + |done|;
      && o + 2 <= |now| && now[start..o] == done
      && IsPointer(now[o]) && Target(now, o) == reference % 0x4000
  {
    hide LabelBytes, Reference, Written, Leads;
    WrittenParts(before, start, LabelBytes(labels[..k]), Reference(reference));
  }

  /** The labels stand at the offset: they are met in order, and then the root. */
  predicate StandsAt(buf: seq<Byte>, o: nat, labels: seq<Label>) {
    Leads(buf, o, labels) && RootAt(buf, EndOf(buf, o, labels))
  }

  /** The name the encoder makes with a reference is the one given if and only if the remaining labels
      stand where the reference points once it has been written: they are still there, and nothing but
      the root follows them. */
  lemma MadeStandsIff(
    before: seq<Byte>, start: nat, labels: seq<Label>, k: nat, reference: nat, now: seq<Byte>, end: nat, budget: nat)
    requires k <= |labels| < budget && forall l :: l in labels ==> 0 < |l| < 0xc0
    requires Made(before, start, labels, k, Some(reference), now, end)
    requires reference < 0x4000 && reference < |now| && !IsPointer(now[reference])
    ensures WalkFrom(now, start, budget) == Walk(labels, true) <==> StandsAt(now, reference, labels[k..])
  {
    hide LabelBytes, Leads, WalkFrom, Made, RootAt, EndOf;
    var front, rest := labels[..k], labels[k..];
    var o := start + |LabelBytes(front)|;
    MadeParts(before, start, labels, k, reference, now, end);
    WalkFront(now, start, front, budget);
    ThroughReference(now, o, reference, budget - k);
    var w := WalkFrom(now, reference, budget - k);
    assert labels == front + rest;
    assert front + w.labels == labels ==> w.labels == rest by {
      assert (front + w.labels)[k..] == w.labels;
    }
    if Leads(now, reference, rest) {
      StandsForIffRootFollows(now, reference, rest, budget - k);
    } else if w == Walk(rest, true) {
      WalkedLeads(now, reference, rest, budget - k);
    }
  }

  // ----- The same, read off the packet before the call

  lemma {:induction false} ChaseBelow(buf: seq<Byte>, n: nat, o: nat, hops: nat)
    requires n <= |buf| && Chase(buf[..n], o, hops).Some?
    ensures Chase(buf, o, hops) == Chase(buf[..n], o, hops)
    decreases hops
  {
    if IsPointer(buf[o]) {
      ChaseBelow(buf, n, Target(buf, o), hops - 1);
    }
  }

  /** What can be read below n does not depend on what comes after. */
  lemma NextBelow(buf: seq<Byte>, n: nat, o: nat)
    requires n <= |buf| && NextSubstring(buf[..n], o).Substring?
    ensures NextSubstring(buf, o) == NextSubstring(buf[..n], o)
  {
    hide Chase;
    if buf[o] != 0 {
      ChaseBelow(buf, n, o, MAX_HOPS);
    }
  }

  lemma LeadsUnfold(buf: seq<Byte>, o: nat, labels: seq<Label>)
    ensures labels == [] ==> Leads(buf, o, labels) && EndOf(buf, o, labels) == o
    ensures
      var r := NextSubstring(buf, o);
      labels != [] ==>
        && (Leads(buf, o, labels)
            <==> MatchesNext(buf, o, labels[0]) && Leads(buf, r.offset + r.length, labels[1..]))
        && (Leads(buf, o, labels) ==> EndOf(buf, o, labels) == EndOf(buf, r.offset + r.length, labels[1..]))
  {
    hide NextSubstring;
  }

  lemma MatchBelow(buf: seq<Byte>, n: nat, o: nat, l: Label)
    requires n <= |buf| && MatchesNext(buf[..n], o, l)
    ensures MatchesNext(buf, o, l) && NextSubstring(buf, o).Substring?
    ensures NextSubstring(buf, o) == NextSubstring(buf[..n], o)
  {
    hide NextSubstring;
    NextBelow(buf, n, o);
    var r := NextSubstring(buf, o);
    assert buf[..n][r.offset..r.offset + r.length] == buf[r.offset..r.offset + r.length];
  }

  lemma {:induction false} LeadsBelow(buf: seq<Byte>, n: nat, o: nat, labels: seq<Label>)
    requires n <= |buf| && Leads(buf[..n], o, labels)
    ensures Leads(buf, o, labels) && EndOf(buf, o, labels) == EndOf(buf[..n], o, labels)
    decreases |labels|
  {
    hide NextSubstring, Leads, EndOf, MatchesNext;
    LeadsUnfold(buf, o, labels);
    LeadsUnfold(buf[..n], o, labels);
    if labels != [] {
      MatchBelow(buf, n, o, labels[0]);
      var r := NextSubstring(buf, o);
      LeadsBelow(buf, n, r.offset + r.length, labels[1..]);
    }
  }

  lemma MadeKeepsBelow(
    before: seq<Byte>, start: nat, labels: seq<Label>, k: nat, reference: nat, now: seq<Byte>, end: nat)
    requires k <= |labels| && Made(before, start, labels, k, Some(reference), now, end)
    ensures k < |labels| && start <= |before| == |now| && now[..start] == before[..start]
  {
    hide LabelBytes, Reference, Leads;
  }

  /** When the match, and whatever ends it, lie wholly in what was there before the call, the name made is
      the one given if and only if what ends the match there is the root. */
  lemma MadeFromEarlierIff(
    before: seq<Byte>, start: nat, labels: seq<Label>, k: nat, reference: nat, now: seq<Byte>, end: nat, budget: nat)
    requires k <= |labels| < budget && forall l :: l in labels ==> 0 < |l| < 0xc0
    requires Made(before, start, labels, k, Some(reference), now, end)
    requires reference < 0x4000 && reference < start <= |before| && !IsPointer(before[reference])
    requires
      var known := before[..start];
      Leads(known, reference, labels[k..])
      && NextSubstring(known, EndOf(known, reference, labels[k..])).Substring?
    ensures
      var known := before[..start];
      WalkFrom(now, start, budget) == Walk(labels, true) <==> RootAt(known, EndOf(known, reference, labels[k..]))
  {
    hide Leads, EndOf, WalkFrom, NextSubstring, Made;
    MadeKeepsBelow(before, start, labels, k, reference, now, end);
    assert now[reference] == now[..start][reference] == before[reference];
    LeadsBelow(now, start, reference, labels[k..]);
    NextBelow(now, start, EndOf(now, reference, labels[k..]));
    MadeStandsIff(before, start, labels, k, reference, now, end, budget);
  }
}
