/** Domain names in DNS messages (src/mdns.c): the label walk of the C code as functions, and the
    message compression of RFC 1035, section 4.1.4, as a relation that knows no limits. */
module MdnsName {

  type Byte = n: nat | n < 0x100
  type Label = seq<Byte>

  /** MDNS_MAX_SUBSTRINGS bounds the labels of a name; 16 bounds the pointers before each label. */
  const MAX_LABELS := 64
  const MAX_HOPS := 16
  const DOT: Byte := 46

  datatype Option<T> = None | Some(value: T)

  /** mdns_is_string_ref: both high bits of the length byte are set. */
  predicate IsPointer(b: Byte) { b >= 0xc0 }

  function BigEndian(buf: seq<Byte>, o: nat): nat
    requires o + 2 <= |buf|
  {
    var high: nat, low: nat := buf[o], buf[o + 1];
    high * 0x100 + low
  }

  /** The 14-bit offset of a pointer. */
  function Target(buf: seq<Byte>, o: nat): nat
    requires o + 2 <= |buf|
  {
    BigEndian(buf, o) % 0x4000
  }

  // ----- RFC 1035

  /** How a name is laid out, byte by byte: the root byte, a pointer, or a label and more. */
  datatype Trace = Root | Jump(rest: Trace) | More(rest: Trace)

  /** The name at `o` is laid out as `t` says and stands for `labels`. Every trace is finite, so no
      name that runs into a pointer cycle expands. */
  predicate Expands(buf: seq<Byte>, o: nat, t: Trace, labels: seq<Label>)
    decreases t
  {
    match t
    case Root => o < |buf| && buf[o] == 0 && labels == []
    case Jump(rest) => o + 2 <= |buf| && IsPointer(buf[o]) && Expands(buf, Target(buf, o), rest, labels)
    case More(rest) =>
      && o < |buf| && 0 < buf[o] && !IsPointer(buf[o]) && o + 1 + buf[o] <= |buf|
      && labels != [] && labels[0] == buf[o + 1..o + 1 + buf[o]]
      && Expands(buf, o + 1 + buf[o], rest, labels[1..])
  }

  /** The first offset after the name in the message. */
  function WireEnd(buf: seq<Byte>, o: nat, t: Trace): nat
    requires o < |buf|
    decreases t
  {
    match t
    case Root => o + 1
    case Jump(_) => o + 2
    case More(rest) => if o + 1 + buf[o] < |buf| then WireEnd(buf, o + 1 + buf[o], rest) else |buf|
  }

  function Hops(t: Trace): nat {
    if t.Jump? then 1 + Hops(t.rest) else 0
  }

  /** No label, nor the root, is reached through more pointers in a row than the code follows. */
  predicate HopsBounded(t: Trace) {
    match t
    case Root => true
    case Jump(rest) => Hops(t) <= 16 && HopsBounded(rest)
    case More(rest) => HopsBounded(rest)
  }

  /** The name at `o` expands to `labels` within the limits of the code. */
  predicate Decodes(buf: seq<Byte>, o: nat, t: Trace, labels: seq<Label>) {
    Expands(buf, o, t, labels) && HopsBounded(t) && |labels| <= 64
  }

  /** A name in text form: every label is followed by a dot. */
  function Dotted(labels: seq<Label>): seq<Byte> {
    if labels == [] then [] else labels[0] + [DOT] + Dotted(labels[1..])
  }

  // ----- The walk of the code

  datatype Substring = Invalid | Substring(offset: nat, length: nat, ref: bool)

  /** The offset of the first length byte that is no pointer, at most `hops` pointers away. */
  function Chase(buf: seq<Byte>, o: nat, hops: nat): Option<nat>
    decreases hops
  {
    if o >= |buf| then None
    else if !IsPointer(buf[o]) then Some(o)
    else if |buf| < o + 2 || hops == 0 then None
    else Chase(buf, Target(buf, o), hops - 1)
  }

  function NextSubstring(buf: seq<Byte>, o: nat): (r: Substring)
    ensures r.Substring? ==> o < |buf| && r.offset + r.length <= |buf| && (r.ref <==> IsPointer(buf[o]))
    ensures r.Substring? && !r.ref && r.length == 0 ==> r.offset == o
  {
    if o >= |buf| then Invalid
    else if buf[o] == 0 then Substring(o, 0, false)
    else match Chase(buf, o, MAX_HOPS)
      case None => Invalid
      case Some(p) =>
        if p < |buf| && p + 1 + buf[p] <= |buf| then Substring(p + 1, buf[p], IsPointer(buf[o])) else Invalid
  }

  /** The labels seen before the walk ends, and whether it ends at the root. `budget` is the number
      of substrings that may still be looked at. */
  datatype Walk = Walk(labels: seq<Label>, complete: bool)

  function WalkFrom(buf: seq<Byte>, cur: nat, budget: nat): Walk
    decreases budget
  {
    match NextSubstring(buf, cur)
    case Invalid => Walk([], false)
    case Substring(offset, length, _) =>
      if budget == 0 then Walk([], false)
      else if length == 0 then Walk([], true)
      else
        var rest := WalkFrom(buf, offset + length, budget - 1);
        Walk([buf[offset..offset + length]] + rest.labels, rest.complete)
  }

  /** The whole name at `o`: at most 64 labels and the root. */
  function WalkName(buf: seq<Byte>, o: nat): Walk {
    WalkFrom(buf, o, MAX_LABELS + 1)
  }

  /** The offset mdns_string_skip leaves, if it succeeds. */
  function SkipFrom(buf: seq<Byte>, cur: nat, budget: nat): Option<nat>
    decreases budget
  {
    match NextSubstring(buf, cur)
    case Invalid => None
    case Substring(offset, length, ref) =>
      if budget == 0 then None
      else if ref then Some(cur + 2)
      else if length == 0 then Some(cur + 1)
      else SkipFrom(buf, offset + length, budget - 1)
  }

  function SkipName(buf: seq<Byte>, o: nat): Option<nat> {
    SkipFrom(buf, o, MAX_LABELS + 1)
  }

  // ----- Every layout the relation allows, the walk finds

  /** A trace without its leading pointers. */
  function Landed(t: Trace): Trace {
    if t.Jump? then Landed(t.rest) else t
  }

  lemma {:induction false} ChaseFollows(buf: seq<Byte>, o: nat, t: Trace, labels: seq<Label>, hops: nat)
    requires Expands(buf, o, t, labels) && Hops(t) <= hops
    ensures Chase(buf, o, hops).Some? && Expands(buf, Chase(buf, o, hops).value, Landed(t), labels)
    ensures !Landed(t).Jump?
    decreases t
  {
    if t.Jump? {
      ChaseFollows(buf, Target(buf, o), t.rest, labels, hops - 1);
    }
  }

  lemma LandedBounded(t: Trace)
    requires HopsBounded(t)
    ensures HopsBounded(Landed(t)) && Hops(t) <= MAX_HOPS
  {
  }

  lemma {:induction false} LandedSmaller(t: Trace)
    ensures Landed(t) == t || Landed(t) < t
  {
    if t.Jump? {
      LandedSmaller(t.rest);
    }
  }

  lemma LandedOnRoot(t: Trace)
    ensures t.Root? ==> Landed(t).Root?
  {
  }

  lemma LandedKeepsBounds(t: Trace)
    requires HopsBounded(Landed(t)) && Landed(t).More?
    ensures HopsBounded(Landed(t).rest)
  {
  }

  lemma ChaseStays(buf: seq<Byte>, o: nat, hops: nat)
    requires o < |buf| && !IsPointer(buf[o])
    ensures Chase(buf, o, hops) == Some(o)
  {
  }

  lemma NextFromChase(buf: seq<Byte>, o: nat, p: nat)
    requires o < |buf| && Chase(buf, o, MAX_HOPS) == Some(p) && p < |buf| && p + 1 + buf[p] <= |buf|
    ensures
      var r := NextSubstring(buf, o);
      && r.Substring? && r.ref == IsPointer(buf[o]) && r.length == buf[p]
      && (buf[o] != 0 ==> r.offset == p + 1)
  {
    if buf[o] == 0 {
      ChaseStays(buf, o, MAX_HOPS);
    }
    hide Chase;
  }

  /** Which byte each kind of layout starts with. */
  lemma StartShape(buf: seq<Byte>, o: nat, t: Trace, labels: seq<Label>)
    requires Expands(buf, o, t, labels)
    ensures o < |buf| && (t.Jump? <==> IsPointer(buf[o])) && (t.Root? <==> buf[o] == 0)
    ensures t.More? ==>
      && o + 1 + buf[o] <= |buf| && labels != [] && labels[0] == buf[o + 1..o + 1 + buf[o]]
      && Expands(buf, o + 1 + buf[o], t.rest, labels[1..])
  {
  }

  /** What the walk sees first in a name that expands. */
  lemma FirstSubstring(buf: seq<Byte>, o: nat, t: Trace, labels: seq<Label>)
    requires Expands(buf, o, t, labels) && HopsBounded(t)
    ensures
      var r := NextSubstring(buf, o);
      && r.Substring? && r.ref == t.Jump?
      && (r.length == 0 <==> Landed(t).Root?)
      && (Landed(t).More? ==>
        && labels != [] && labels[0] == buf[r.offset..r.offset + r.length]
        && Expands(buf, r.offset + r.length, Landed(t).rest, labels[1..])
        && HopsBounded(Landed(t).rest))
      && (t.More? ==> r.offset + r.length == o + 1 + buf[o])
  {
    hide Chase, NextSubstring, Expands, HopsBounded, Hops, Landed;
    LandedBounded(t);
    ChaseFollows(buf, o, t, labels, MAX_HOPS);
    var p := Chase(buf, o, MAX_HOPS).value;
    StartShape(buf, o, t, labels);
    StartShape(buf, p, Landed(t), labels);
    NextFromChase(buf, o, p);
    if Landed(t).More? {
      LandedKeepsBounds(t);
    }
    if t.More? {
      ChaseStays(buf, o, MAX_HOPS);
    }
    LandedOnRoot(t);
  }

  lemma {:induction false} WalkComplete(buf: seq<Byte>, o: nat, t: Trace, labels: seq<Label>, budget: nat)
    requires Expands(buf, o, t, labels) && HopsBounded(t)
    ensures |labels| < budget ==> WalkFrom(buf, o, budget) == Walk(labels, true)
    ensures |labels| >= budget ==> !WalkFrom(buf, o, budget).complete
    decreases budget
  {
    hide Chase, NextSubstring, Expands, HopsBounded, Landed;
    FirstSubstring(buf, o, t, labels);
    var r := NextSubstring(buf, o);
    if Landed(t).More? {
      if budget > 0 {
        WalkComplete(buf, r.offset + r.length, Landed(t).rest, labels[1..], budget - 1);
        assert labels == [labels[0]] + labels[1..];
      }
    } else {
      NoLabels(buf, o, t, labels);
    }
  }

  lemma {:induction false} NoLabels(buf: seq<Byte>, o: nat, t: Trace, labels: seq<Label>)
    requires Expands(buf, o, t, labels) && !Landed(t).More?
    ensures labels == [] && Landed(t).Root?
    decreases t
  {
    if t.Jump? {
      NoLabels(buf, Target(buf, o), t.rest, labels);
    }
  }

  lemma LayoutFirst(buf: seq<Byte>, o: nat, t: Trace, labels: seq<Label>)
    requires Expands(buf, o, t, labels) && HopsBounded(t) && o < |buf|
    ensures t.Root? ==> WireEnd(buf, o, t) == o + 1
    ensures t.Jump? ==> WireEnd(buf, o, t) == o + 2
    ensures !t.Jump? ==> Landed(t) == t
    ensures t.More? ==>
      var next := o + 1 + buf[o];
      && labels != [] && Expands(buf, next, t.rest, labels[1..]) && HopsBounded(t.rest)
      && next < |buf| && WireEnd(buf, o, t) == WireEnd(buf, next, t.rest)
  {
    if t.More? {
      StartShape(buf, o + 1 + buf[o], t.rest, labels[1..]);
    }
  }

  lemma {:induction false} SkipComplete(buf: seq<Byte>, o: nat, t: Trace, labels: seq<Label>, budget: nat)
    requires Expands(buf, o, t, labels) && HopsBounded(t) && |labels| < budget
    ensures o < |buf| && SkipFrom(buf, o, budget) == Some(WireEnd(buf, o, t))
    decreases budget
  {
    hide Chase, NextSubstring, Expands, HopsBounded, WireEnd, Landed;
    StartShape(buf, o, t, labels);
    FirstSubstring(buf, o, t, labels);
    LayoutFirst(buf, o, t, labels);
    if t.More? {
      SkipComplete(buf, o + 1 + buf[o], t.rest, labels[1..], budget - 1);
    }
  }

  // ----- Everything the walk finds, the relation allows

  lemma {:induction false} ChaseSound(buf: seq<Byte>, o: nat, hops: nat, t: Trace, labels: seq<Label>)
    returns (whole: Trace)
    requires Chase(buf, o, hops).Some? && !t.Jump? && HopsBounded(t)
    requires hops <= MAX_HOPS
    requires Expands(buf, Chase(buf, o, hops).value, t, labels)
    ensures Expands(buf, o, whole, labels) && Hops(whole) <= hops && HopsBounded(whole)
    decreases hops
  {
    if IsPointer(buf[o]) {
      var rest := ChaseSound(buf, Target(buf, o), hops - 1, t, labels);
      whole := Jump(rest);
    } else {
      whole := t;
    }
  }

  lemma {:induction false} WalkSound(buf: seq<Byte>, o: nat, budget: nat) returns (t: Trace)
    requires WalkFrom(buf, o, budget).complete
    ensures Expands(buf, o, t, WalkFrom(buf, o, budget).labels)
    ensures HopsBounded(t) && |WalkFrom(buf, o, budget).labels| < budget
    decreases budget
  {
    hide NextSubstring, Expands;
    var r := NextSubstring(buf, o);
    if r.length == 0 {
      t := SubstringSound(buf, o, Root, []);
    } else {
      var tail := WalkFrom(buf, r.offset + r.length, budget - 1).labels;
      assert WalkFrom(buf, o, budget).labels == [buf[r.offset..r.offset + r.length]] + tail;
      var rest := WalkSound(buf, r.offset + r.length, budget - 1);
      t := SubstringSound(buf, o, rest, tail);
    }
  }

  /** The layout of a name whose first substring and, if that is a label, rest are known. */
  lemma SubstringSound(buf: seq<Byte>, o: nat, rest: Trace, tail: seq<Label>) returns (t: Trace)
    requires NextSubstring(buf, o).Substring? && HopsBounded(rest)
    requires
      var r := NextSubstring(buf, o);
      if r.length == 0 then tail == [] else Expands(buf, r.offset + r.length, rest, tail)
    ensures HopsBounded(t)
    ensures
      var r := NextSubstring(buf, o);
      Expands(buf, o, t, if r.length == 0 then [] else [buf[r.offset..r.offset + r.length]] + tail)
  {
    var r := NextSubstring(buf, o);
    if buf[o] == 0 {
      t := Root;
    } else {
      ChaseLands(buf, o, MAX_HOPS);
      if r.length == 0 {
        t := ChaseSound(buf, o, MAX_HOPS, Root, []);
      } else {
        var labels := [buf[r.offset..r.offset + r.length]] + tail;
        assert labels[1..] == tail;
        t := ChaseSound(buf, o, MAX_HOPS, More(rest), labels);
      }
    }
  }

  lemma {:induction false} ChaseLands(buf: seq<Byte>, o: nat, hops: nat)
    requires Chase(buf, o, hops).Some?
    ensures Chase(buf, o, hops).value < |buf| && !IsPointer(buf[Chase(buf, o, hops).value])
    decreases hops
  {
    if IsPointer(buf[o]) {
      ChaseLands(buf, Target(buf, o), hops - 1);
    }
  }

  // ----- Main results

  /** Decoding refines RFC 1035, section 4.1.4: the walk completes exactly when the name expands
      within 16 pointers per label and 64 labels, and then yields that expansion and its end. */
  lemma WalkIffDecodes(buf: seq<Byte>, o: nat)
    ensures WalkName(buf, o).complete <==> exists t, labels :: Decodes(buf, o, t, labels)
    ensures forall t, labels :: Decodes(buf, o, t, labels) ==>
      WalkName(buf, o).labels == labels && o < |buf| && SkipName(buf, o) == Some(WireEnd(buf, o, t))
  {
    hide WalkFrom, SkipFrom, Expands, HopsBounded, WireEnd;
    forall t, labels | Decodes(buf, o, t, labels)
      ensures WalkName(buf, o) == Walk(labels, true)
      ensures o < |buf| && SkipName(buf, o) == Some(WireEnd(buf, o, t))
    {
      WalkComplete(buf, o, t, labels, MAX_LABELS + 1);
      SkipComplete(buf, o, t, labels, MAX_LABELS + 1);
    }
    if WalkName(buf, o).complete {
      var t := WalkSound(buf, o, MAX_LABELS + 1);
      assert Decodes(buf, o, t, WalkName(buf, o).labels);
    }
  }

  /** Skip agrees with extract: whenever the name can be extracted, it can be skipped. Both then
      leave the offset after the name in the message, whatever pointers it holds. */
  lemma SkipAgreesWithWalk(buf: seq<Byte>, o: nat)
    requires WalkName(buf, o).complete
    ensures SkipName(buf, o).Some?
  {
    WalkIffDecodes(buf, o);
    var t, labels :| Decodes(buf, o, t, labels);
  }

  /** A buffer position has at most one layout and one expansion. */
  lemma {:induction false} ExpansionUnique(
    buf: seq<Byte>, o: nat, t: Trace, labels: seq<Label>, t': Trace, labels': seq<Label>)
    requires Expands(buf, o, t, labels) && Expands(buf, o, t', labels')
    ensures t == t' && labels == labels'
    decreases t
  {
    match t
    case Root =>
    case Jump(rest) =>
      ExpansionUnique(buf, Target(buf, o), rest, labels, t'.rest, labels');
    case More(rest) =>
      ExpansionUnique(buf, o + 1 + buf[o], rest, labels[1..], t'.rest, labels'[1..]);
      assert labels == [labels[0]] + labels[1..] && labels' == [labels'[0]] + labels'[1..];
  }

  // ----- What the walk sees of any packet

  /** Pointers one after the other, at most 16 of them, and then a length byte and as many bytes. */
  predicate PathTo(buf: seq<Byte>, path: seq<nat>) {
    && 1 <= |path| <= 17
    && (forall i :: 0 <= i < |path| - 1 ==>
          path[i] + 2 <= |buf| && IsPointer(buf[path[i]]) && path[i + 1] == Target(buf, path[i]))
    && var last := path[|path| - 1];
    last < |buf| && buf[last] < 0xc0 && last + 1 + buf[last] <= |buf|
  }

  lemma {:induction false} ChaseIsPath(buf: seq<Byte>, o: nat, hops: nat) returns (path: seq<nat>)
    requires Chase(buf, o, hops).Some? && hops <= 16
    requires var p := Chase(buf, o, hops).value; p < |buf| && p + 1 + buf[p] <= |buf|
    ensures PathTo(buf, path) && path[0] == o && path[|path| - 1] == Chase(buf, o, hops).value && |path| <= hops + 1
    decreases hops
  {
    if IsPointer(buf[o]) {
      var rest := ChaseIsPath(buf, Target(buf, o), hops - 1);
      path := [o] + rest;
    } else {
      path := [o];
    }
  }

  lemma PathShorter(buf: seq<Byte>, path: seq<nat>)
    requires PathTo(buf, path) && |path| > 1
    ensures PathTo(buf, path[1..]) && IsPointer(buf[path[0]]) && path[0] + 2 <= |buf|
    ensures path[1] == Target(buf, path[0])
  {
    var rest := path[1..];
    forall i | 0 <= i < |rest| - 1
      ensures rest[i] + 2 <= |buf| && IsPointer(buf[rest[i]]) && rest[i + 1] == Target(buf, rest[i])
    {
      var j := i + 1;
      assert rest[i] == path[j] && rest[i + 1] == path[j + 1];
    }
  }

  lemma {:induction false} PathIsChased(buf: seq<Byte>, path: seq<nat>, hops: nat)
    requires PathTo(buf, path) && |path| <= hops + 1
    ensures Chase(buf, path[0], hops) == Some(path[|path| - 1])
    decreases |path|
  {
    if |path| > 1 {
      var rest := path[1..];
      assert forall i :: 0 <= i < |rest| ==> rest[i] == path[i + 1];
      PathShorter(buf, path);
      PathIsChased(buf, rest, hops - 1);
    }
  }

  /** A substring is found exactly where such a path starts, and it is the one the path leads to. */
  lemma SubstringExact(buf: seq<Byte>, o: nat)
    ensures NextSubstring(buf, o).Substring? <==> exists path :: PathTo(buf, path) && path[0] == o
    ensures
      forall path :: PathTo(buf, path) && path[0] == o ==>
        var r, last := NextSubstring(buf, o), path[|path| - 1];
        && r.Substring? && r.length == buf[last] && (r.ref <==> |path| > 1)
        && r.offset == if buf[o] == 0 then o else last + 1
  {
    forall path | PathTo(buf, path) && path[0] == o
      ensures
        var r, last := NextSubstring(buf, o), path[|path| - 1];
        && r.Substring? && r.length == buf[last] && (r.ref <==> |path| > 1)
        && r.offset == if buf[o] == 0 then o else last + 1
    {
      PathIsChased(buf, path, MAX_HOPS);
      StartOfPath(buf, path);
      NextFromChase(buf, o, path[|path| - 1]);
      if buf[o] == 0 {
        ZeroAtOnce(buf, o);
      }
    }
    if NextSubstring(buf, o).Substring? {
      FoundByChase(buf, o);
      var path := ChaseIsPath(buf, o, MAX_HOPS);
    }
  }

  lemma StartOfPath(buf: seq<Byte>, path: seq<nat>)
    requires PathTo(buf, path)
    ensures path[0] < |buf| && (IsPointer(buf[path[0]]) <==> |path| > 1)
  {
  }

  lemma ZeroAtOnce(buf: seq<Byte>, o: nat)
    requires o < |buf| && buf[o] == 0
    ensures NextSubstring(buf, o) == Substring(o, 0, false)
  {
  }

  lemma FoundByChase(buf: seq<Byte>, o: nat)
    requires NextSubstring(buf, o).Substring?
    ensures Chase(buf, o, MAX_HOPS).Some?
    ensures var p := Chase(buf, o, MAX_HOPS).value; p < |buf| && p + 1 + buf[p] <= |buf|
  {
    if buf[o] == 0 {
      ChaseStays(buf, o, MAX_HOPS);
    }
    hide Chase;
  }

  /** n labels in a row, and then the root byte, or a pointer that leads to a length byte. */
  predicate Skips(buf: seq<Byte>, o: nat, n: nat, end: nat)
    decreases n
  {
    && o < |buf|
    && if n == 0 then
         (buf[o] == 0 && end == o + 1) || (buf[o] >= 0xc0 && NextSubstring(buf, o).Substring? && end == o + 2)
       else
         0 < buf[o] < 0xc0 && o + 1 + buf[o] <= |buf| && Skips(buf, o + 1 + buf[o], n - 1, end)
  }

  lemma SubstringHere(buf: seq<Byte>, o: nat)
    requires o < |buf| && buf[o] < 0xc0
    ensures NextSubstring(buf, o).Substring? <==> o + 1 + buf[o] <= |buf|
    ensures NextSubstring(buf, o).Substring? ==>
      NextSubstring(buf, o) == if buf[o] == 0 then Substring(o, 0, false) else Substring(o + 1, buf[o], false)
  {
    ChaseStays(buf, o, MAX_HOPS);
    hide Chase;
  }

  lemma {:induction false} SkipSound(buf: seq<Byte>, o: nat, budget: nat) returns (n: nat)
    requires SkipFrom(buf, o, budget).Some?
    ensures n < budget && Skips(buf, o, n, SkipFrom(buf, o, budget).value)
    decreases budget
  {
    hide NextSubstring;
    n := 0;
    if buf[o] < 0xc0 {
      SubstringHere(buf, o);
      if buf[o] > 0 {
        n := SkipSound(buf, o + 1 + buf[o], budget - 1);
        n := n + 1;
      }
    }
  }

  lemma {:induction false} SkipFound(buf: seq<Byte>, o: nat, n: nat, end: nat, budget: nat)
    requires Skips(buf, o, n, end) && n < budget
    ensures SkipFrom(buf, o, budget) == Some(end)
    decreases n
  {
    hide NextSubstring;
    if buf[o] < 0xc0 {
      SubstringHere(buf, o);
      if n > 0 {
        SkipFound(buf, o + 1 + buf[o], n - 1, end, budget - 1);
      }
    }
  }

  /** When a name is skipped, and to where, on every packet: at most 64 labels, and what follows the
      first pointer does not matter beyond its first length byte. */
  lemma SkipIff(buf: seq<Byte>, o: nat, end: nat)
    ensures SkipName(buf, o) == Some(end) <==> exists n :: 0 <= n <= 64 && Skips(buf, o, n, end)
  {
    hide SkipFrom, Skips;
    if SkipName(buf, o) == Some(end) {
      var n := SkipSound(buf, o, MAX_LABELS + 1);
    }
    if n: nat :| n <= 64 && Skips(buf, o, n, end) {
      SkipFound(buf, o, n, end, MAX_LABELS + 1);
    }
  }
}
