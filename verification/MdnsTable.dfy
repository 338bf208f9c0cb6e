/** The suffix table of src/mdns.c: a ring of the 16 most recent label offsets, searched for a place
    where some labels already stand. */
module MdnsTable {
  import opened MdnsName
  import opened MdnsDecode
  import opened MdnsEncode

  const TABLE_SIZE := 16

  /** From `cur` on, the walk meets these labels, each non-empty, in order. */
  predicate Leads(buf: seq<Byte>, cur: nat, labels: seq<Label>)
    decreases |labels|
  {
    labels == [] ||
    var r := NextSubstring(buf, cur);
    && r.Substring? && 0 < r.length == |labels[0]|
    && buf[r.offset..r.offset + r.length] == labels[0]
    && Leads(buf, r.offset + r.length, labels[1..])
  }

  /** What a table holds of the offsets added: the last 16. */
  function Held(added: seq<nat>): seq<nat> {
    if |added| < 16 then added else added[|added| - 16..]
  }

  /** The last of n consecutive offsets that went into the slot. */
  lemma LastInSlot(n: nat, slot: nat) returns (k: nat)
    requires slot < n && slot < TABLE_SIZE
    ensures n - TABLE_SIZE <= k < n && k % TABLE_SIZE == slot
  {
    var turns := n / TABLE_SIZE * TABLE_SIZE;
    k := if slot < n - turns then turns + slot else turns - TABLE_SIZE + slot;
  }

  class StringTable {
    const offset: array<nat>
    var count: nat
    var next: nat
    ghost var added: seq<nat>

    /** The table holds the last min(16, n) of the n offsets added. */
    ghost predicate Valid()
      reads this, offset
    {
      && offset.Length == TABLE_SIZE
      && count == |Held(added)|
      && next == |added| % TABLE_SIZE
      && forall k :: |added| - count <= k < |added| ==> offset[k % TABLE_SIZE] == added[k]
    }

    constructor ()
      ensures Valid() && added == [] && fresh(offset)
    {
      offset := new nat[TABLE_SIZE](_ => 0);
      count, next := 0, 0;
      added := [];
    }

    /** mdns_string_table_add */
    method Add(o: nat)
      requires Valid()
      modifies this, offset
      ensures Valid() && added == old(added) + [o]
    {
      offset[next] := o;
      count := count + 1;
      if count > TABLE_SIZE {
        count := TABLE_SIZE;
      }
      next := next + 1;
      if next >= TABLE_SIZE {
        next := 0;
      }
      added := added + [o];
      RingOrder(|added| - 1);
    }

    /** mdns_string_table_find for a non-empty name and the length of its first label. An offset is
        found exactly when one of those held leads to the name's labels. */
    method Find(buf: seq<Byte>, str: seq<Byte>, firstLength: nat) returns (r: Option<nat>)
      requires Valid() && str != [] && firstLength == FirstDot(str)
      ensures r.Some? ==> r.value in Held(added) && Leads(buf, r.value, Split(str))
      ensures r.None? ==> forall o :: o in Held(added) ==> !Leads(buf, o, Split(str))
    {
      hide Leads, Split, FirstDot;
      var istr := 0;
      while istr < count
        invariant istr <= count
        invariant forall i :: 0 <= i < istr ==> !Leads(buf, offset[i], Split(str))
      {
        var found := MatchesAt(buf, offset[istr], str, firstLength);
        if found {
          SlotHeld(istr);
          return Some(offset[istr]);
        }
        istr := istr + 1;
      }
      forall o | o in Held(added)
        ensures !Leads(buf, o, Split(str))
      {
        var i := HeldInSlot(o);
      }
      return None;
    }

    lemma HeldInSlot(o: nat) returns (slot: nat)
      requires Valid() && o in Held(added)
      ensures slot < count && offset[slot] == o
    {
      var i :| 0 <= i < count && Held(added)[i] == o;
      var k := |added| - count + i;
      assert added[k] == o && offset[k % TABLE_SIZE] == o;
      slot := k % TABLE_SIZE;
    }

    lemma SlotHeld(i: nat)
      requires Valid() && i < count
      ensures offset[i] in Held(added)
    {
      var base := |added| - count;
      var k := LastInSlot(|added|, i);
      assert added[base..][k - base] == added[k];
    }
  }

  /** The slot of the newest of 16 consecutive offsets differs from those of the others. */
  lemma RingOrder(n: nat)
    ensures forall k :: 0 <= k < n && n - TABLE_SIZE < k ==> k % TABLE_SIZE != n % TABLE_SIZE
    ensures (n + 1) % TABLE_SIZE == if n % TABLE_SIZE + 1 >= TABLE_SIZE then 0 else n % TABLE_SIZE + 1
  {
  }

  /** One label of the query, compared with one substring of the packet. */
  predicate MatchesNext(buf: seq<Byte>, cur: nat, piece: seq<Byte>) {
    var r := NextSubstring(buf, cur);
    r.Substring? && 0 < r.length == |piece| && buf[r.offset..r.offset + r.length] == piece
  }

  lemma LeadsStep(buf: seq<Byte>, cur: nat, str: seq<Byte>)
    requires str != []
    ensures
      var r := NextSubstring(buf, cur);
      Leads(buf, cur, Split(str))
      <==> MatchesNext(buf, cur, str[..FirstDot(str)]) && Leads(buf, r.offset + r.length, Split(AfterDot(str)))
  {
    hide NextSubstring, FirstDot, AfterDot;
    assert Split(str)[1..] == Split(AfterDot(str));
  }

  /** The body of the search loop: one offset against the labels of the name. */
  method MatchesAt(buf: seq<Byte>, o: nat, str: seq<Byte>, firstLength: nat) returns (found: bool)
    requires str != [] && firstLength == FirstDot(str)
    ensures found <==> Leads(buf, o, Split(str))
  {
    hide NextSubstring, FirstDot, Split, Leads, AfterDot;
    LeadsStep(buf, o, str);
    assert From(str, 0) == str;
    FromNext(str, 0);
    if o >= |buf| {
      NothingBeyond(buf, o);
      return false;
    }
    var sub := GetNextSubstring(buf, o);
    if sub.Invalid? || sub.length == 0 || sub.length != firstLength {
      return false;
    }
    if str[..firstLength] != buf[sub.offset..sub.offset + sub.length] {
      return false;
    }
    var offset: nat := firstLength + 1;
    var cur: nat := sub.offset + sub.length;
    while offset < |str|
      invariant Leads(buf, o, Split(str)) <==> Leads(buf, cur, Split(From(str, offset)))
    {
      var rest := From(str, offset);
      LeadsStep(buf, cur, rest);
      FromNext(str, offset);
      var dotPos := offset + FirstDot(rest);
      var currentLength := dotPos - offset;
      assert rest[..currentLength] == str[offset..offset + currentLength];
      sub := GetNextSubstring(buf, cur);
      if sub.Invalid? || sub.length == 0 || sub.length != currentLength {
        return false;
      }
      if str[offset..offset + currentLength] != buf[sub.offset..sub.offset + sub.length] {
        return false;
      }
      offset := dotPos + 1;
      cur := sub.offset + sub.length;
    }
    LeadsNowhere(buf, cur);
    return true;
  }

  /** The name from `offset` on; the offset may be one past its end. */
  function From(str: seq<Byte>, offset: nat): seq<Byte> {
    if offset < |str| then str[offset..] else []
  }

  lemma FromNext(str: seq<Byte>, offset: nat)
    requires offset < |str|
    ensures AfterDot(From(str, offset)) == From(str, offset + FirstDot(From(str, offset)) + 1)
  {
    hide FirstDot;
  }

  lemma LeadsNowhere(buf: seq<Byte>, cur: nat)
    ensures Leads(buf, cur, Split([]))
  {
  }

  lemma NothingBeyond(buf: seq<Byte>, o: nat)
    requires o >= |buf|
    ensures NextSubstring(buf, o).Invalid?
  {
  }

  lemma PrefixCons(labels: seq<Label>, rest: seq<Label>)
    requires labels != [] && labels[1..] <= rest
    ensures labels <= [labels[0]] + rest
  {
    assert rest[..|labels| - 1] == labels[1..];
  }

  lemma LeadsFirst(buf: seq<Byte>, o: nat, labels: seq<Label>, budget: nat)
    requires labels != [] && Leads(buf, o, labels) && budget > 0
    ensures
      var r := NextSubstring(buf, o);
      && r.Substring? && Leads(buf, r.offset + r.length, labels[1..])
      && WalkFrom(buf, o, budget).labels == [labels[0]] + WalkFrom(buf, r.offset + r.length, budget - 1).labels
  {
    hide NextSubstring;
  }

  /** Suffix table soundness: an offset that leads to the queried labels starts a walk over a name
      that has them as a prefix. */
  lemma {:induction false} LeadsToPrefix(buf: seq<Byte>, o: nat, labels: seq<Label>, budget: nat)
    requires Leads(buf, o, labels) && |labels| <= budget
    ensures labels <= WalkFrom(buf, o, budget).labels
    decreases budget
  {
    hide NextSubstring, Leads, WalkFrom;
    if labels != [] {
      var r := NextSubstring(buf, o);
      LeadsFirst(buf, o, labels, budget);
      LeadsToPrefix(buf, r.offset + r.length, labels[1..], budget - 1);
      PrefixCons(labels, WalkFrom(buf, r.offset + r.length, budget - 1).labels);
    }
  }

  /** Where the labels that `o` leads to end. */
  function EndOf(buf: seq<Byte>, o: nat, labels: seq<Label>): nat
    requires Leads(buf, o, labels)
    decreases |labels|
  {
    if labels == [] then o
    else
      var r := NextSubstring(buf, o);
      EndOf(buf, r.offset + r.length, labels[1..])
  }

  /** A root byte there, possibly behind pointers. */
  predicate RootAt(buf: seq<Byte>, o: nat) {
    var r := NextSubstring(buf, o);
    r.Substring? && r.length == 0
  }

  /** An offset the search offers stands for the queried name if and only if the root comes right
      after the labels that matched; the search does not look. */
  lemma {:induction false} StandsForIffRootFollows(buf: seq<Byte>, o: nat, labels: seq<Label>, budget: nat)
    requires Leads(buf, o, labels) && |labels| < budget
    ensures WalkFrom(buf, o, budget) == Walk(labels, true) <==> RootAt(buf, EndOf(buf, o, labels))
    decreases budget
  {
    hide NextSubstring;
    if labels != [] {
      var r := NextSubstring(buf, o);
      var rest := WalkFrom(buf, r.offset + r.length, budget - 1);
      StandsForIffRootFollows(buf, r.offset + r.length, labels[1..], budget - 1);
      assert WalkFrom(buf, o, budget) == Walk([labels[0]] + rest.labels, rest.complete);
      assert ([labels[0]] + rest.labels)[1..] == rest.labels && [labels[0]] + labels[1..] == labels;
    }
  }

  lemma {:induction false} WalkedLeads(buf: seq<Byte>, o: nat, labels: seq<Label>, budget: nat)
    requires WalkFrom(buf, o, budget) == Walk(labels, true)
    ensures Leads(buf, o, labels)
    decreases budget
  {
    hide NextSubstring;
    if labels != [] {
      var r := NextSubstring(buf, o);
      var rest := WalkFrom(buf, r.offset + r.length, budget - 1);
      assert labels == [buf[r.offset..r.offset + r.length]] + rest.labels;
      assert labels[1..] == rest.labels;
      WalkedLeads(buf, r.offset + r.length, labels[1..], budget - 1);
    }
  }

  /** What the walk yields of any packet: the labels it is led to until there is no further substring,
      the root, or none may be looked at; and it is complete at the root only. */
  lemma {:induction false} WalkExact(buf: seq<Byte>, o: nat, budget: nat)
    ensures
      var w := WalkFrom(buf, o, budget);
      && Leads(buf, o, w.labels) && |w.labels| <= budget
      && var r := NextSubstring(buf, EndOf(buf, o, w.labels));
      && (w.complete <==> |w.labels| < budget && r.Substring? && r.length == 0)
      && (|w.labels| == budget || r.Invalid? || r.length == 0)
    decreases budget
  {
    hide NextSubstring;
    var r := NextSubstring(buf, o);
    if r.Substring? && budget > 0 && r.length > 0 {
      var rest := WalkFrom(buf, r.offset + r.length, budget - 1).labels;
      WalkExact(buf, r.offset + r.length, budget - 1);
      assert ([buf[r.offset..r.offset + r.length]] + rest)[1..] == rest;
    }
  }

  // ----- The table while a name is being written

  /** A label, and after it a reference to the label itself. */
  predicate RefersToItself(buf: seq<Byte>, o: nat, l: Label) {
    && 0 < |l| < 0xc0 && o + |l| + 3 <= |buf|
    && buf[o] == |l|
    && IsPointer(buf[o + |l| + 1]) && Target(buf, o + |l| + 1) == o
  }

  lemma {:induction false} SelfReferenceNeverExpands(
    buf: seq<Byte>, o: nat, l: Label, t: Trace, labels: seq<Label>)
    requires RefersToItself(buf, o, l)
    ensures !Expands(buf, o, t, labels) && !Expands(buf, o + |l| + 1, t, labels)
    decreases t
  {
    if t.More? && labels != [] {
      SelfReferenceNeverExpands(buf, o, l, t.rest, labels[1..]);
    } else if t.Jump? {
      SelfReferenceNeverExpands(buf, o, l, t.rest, labels);
    }
  }

  /** A packet with a label at the end of `before`, and after it a reference to that offset. */
  function SelfReferring(before: seq<Byte>, l: Label, after: seq<Byte>): (made: seq<Byte>)
    requires 0 < |l| < 0xc0 && |before| < 0x4000
    ensures RefersToItself(made, |before|, l)
  {
    var high: Byte, low: Byte := 0xc0 + |before| / 0x100, |before| % 0x100;
    var made := before + [|l|] + l + [high, low] + after;
    assert made[|before| + |l| + 1] == high && made[|before| + |l| + 2] == low;
    made
  }

  /** Encoding "l.l" with a table: when the first label has been written, and whatever two bytes come
      after it, the table offers the first label for the second; and with the reference written over
      those two bytes the name expands to nothing at all. */
  lemma RepeatedLabelNeverExpands(before: seq<Byte>, l: Label, x: Byte, y: Byte, after: seq<Byte>)
    requires 0 < |l| < 0xc0 && |before| < 0x4000
    ensures Leads(before + [|l|] + l + [x, y] + after, |before|, [l])
    ensures forall t, labels :: !Expands(SelfReferring(before, l, after), |before|, t, labels)
  {
    var o := |before|;
    var buf := before + [|l|] + l + [x, y] + after;
    assert buf[o] == |l| && buf[o + 1..o + 1 + |l|] == l;
    assert NextSubstring(buf, o) == Substring(o + 1, |l|, false);
    assert [l][1..] == [];
    forall t, labels ensures !Expands(SelfReferring(before, l, after), o, t, labels) {
      SelfReferenceNeverExpands(SelfReferring(before, l, after), o, l, t, labels);
    }
  }
}
