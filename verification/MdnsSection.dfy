/** What the answer walk finds in a section that is laid out by RFC 1035, section 4.1.3, with records of
    any type, and when what it finds is right. */
module MdnsSection {
  import opened MdnsName
  import opened MdnsDecode
  import opened MdnsAnswer

  // ----- Well-formed sections

  /** One resource record: where it starts, its owner name, its type, and where its data are. */
  datatype Record = Record(start: nat, ownerLayout: Trace, owner: seq<Label>, kind: nat, data: nat, length: nat)

  /** Records one after the other from `o` on; their owner names decode, and what their data mean is
      left open. */
  predicate SectionAt(buf: seq<Byte>, o: nat, records: seq<Record>)
    decreases |records|
  {
    records == [] ||
    var r := records[0];
    && r.start == o < |buf| && Decodes(buf, o, r.ownerLayout, r.owner)
    && r.data == WireEnd(buf, o, r.ownerLayout) + 10 <= |buf|
    && r.kind == BigEndian(buf, r.data - 10) && r.length == BigEndian(buf, r.data - 2)
    && r.data + r.length <= |buf|
    && SectionAt(buf, r.data + r.length, records[1..])
  }

  lemma SectionFirst(buf: seq<Byte>, o: nat, records: seq<Record>)
    requires SectionAt(buf, o, records) && records != []
    ensures
      var r := records[0];
      && DataStart(buf, o) == r.data <= |buf| && DataLength(buf, o) == r.length
      && NextRecord(buf, o) == r.data + r.length <= |buf|
      && SectionAt(buf, NextRecord(buf, o), records[1..])
  {
    hide WalkName, SkipName, Decodes;
    WalkIffDecodes(buf, o);
  }

  lemma RecordStarts(buf: seq<Byte>, o: nat, records: seq<Record>, i: nat)
    requires SectionAt(buf, o, records) && records != []
    ensures RecordStart(buf, o, 0) == Some(records[0].start)
    ensures i > 0 && DataStart(buf, o) <= |buf| ==>
      RecordStart(buf, o, i) == RecordStart(buf, NextRecord(buf, o), i - 1)
  {
    hide DataStart, DataLength, NextRecord, Decodes;
  }

  /** In a well-formed section every iteration starts at a true record boundary. */
  lemma {:induction false} WalkKeepsBoundaries(buf: seq<Byte>, o: nat, records: seq<Record>, i: nat)
    requires SectionAt(buf, o, records) && i < |records|
    ensures RecordStart(buf, o, i) == Some(records[i].start)
    decreases i
  {
    hide DataStart, DataLength, NextRecord, SectionAt, RecordStart;
    RecordStarts(buf, o, records, i);
    if i > 0 {
      SectionFirst(buf, o, records);
      WalkKeepsBoundaries(buf, NextRecord(buf, o), records[1..], i - 1);
    }
  }

  function SectionEnd(buf: seq<Byte>, o: nat, records: seq<Record>): nat
    requires SectionAt(buf, o, records)
    decreases |records|
  {
    if records == [] then o else SectionEnd(buf, records[0].data + records[0].length, records[1..])
  }

  /** The fields of the next record, or the data they announce, run past the packet. */
  predicate Cut(buf: seq<Byte>, o: nat) {
    DataStart(buf, o) > |buf| || NextRecord(buf, o) > |buf|
  }

  /** A section of n records, of which those listed are there whole; the next one, if any, is cut, as
      when the packet was longer than the buffer it was received into. */
  predicate SectionOf(buf: seq<Byte>, o: nat, records: seq<Record>, n: nat) {
    SectionAt(buf, o, records) && |records| <= n && (|records| < n ==> Cut(buf, SectionEnd(buf, o, records)))
  }

  /** mdns_record_parse_ptr yields no string for data of fewer than two bytes. */
  predicate Readable(records: seq<Record>) {
    forall r :: r in records ==> r.length >= 2
  }

  // ----- From packets to texts

  /** What the walk writes for a record, whatever its type: the labels it meets in the data, even when
      they turn out not to be a name. */
  function TextOf(buf: seq<Byte>, r: Record): seq<Byte> {
    Dotted(WalkName(buf, r.data).labels)
  }

  function Texts(buf: seq<Byte>, records: seq<Record>): (texts: seq<seq<Byte>>)
    ensures |texts| == |records|
    ensures forall i :: 0 <= i < |records| ==> texts[i] == TextOf(buf, records[i])
  {
    if records == [] then [] else [TextOf(buf, records[0])] + Texts(buf, records[1..])
  }

  /** The walk over the texts alone: each is written over the name buffer and compared. */
  predicate CheckTexts(texts: seq<seq<Byte>>, query: seq<Byte>, names: seq<Byte>) {
    texts != [] &&
    var names' := Overlay(names, texts[0]);
    Matches(names', query) || CheckTexts(texts[1..], query, names')
  }

  lemma CheckFirst(buf: seq<Byte>, o: nat, records: seq<Record>, n: nat, query: seq<Byte>, names: seq<Byte>)
    requires SectionAt(buf, o, records) && records != [] && records[0].length >= 2
    ensures DataStart(buf, o) <= |buf|
    ensures
      var names' := Overlay(names, TextOf(buf, records[0]));
      && Check(buf, o, n + 1, query, names)
         == (Matches(names', query) || Check(buf, NextRecord(buf, o), n, query, names'))
      && Comparable(buf, o, n + 1, query, names)
         == (Matches(names', query) || Comparable(buf, NextRecord(buf, o), n, query, names'))
  {
    hide WalkName, SkipName, Matches, DataStart, DataLength, Dotted, SectionAt;
    SectionFirst(buf, o, records);
  }

  lemma SectionOfRest(buf: seq<Byte>, o: nat, records: seq<Record>, n: nat)
    requires SectionOf(buf, o, records, n + 1) && records != []
    ensures DataStart(buf, o) <= |buf| && SectionOf(buf, NextRecord(buf, o), records[1..], n)
  {
    hide DataStart, NextRecord, Cut, Decodes;
    SectionFirst(buf, o, records);
  }

  lemma BeyondEnd(buf: seq<Byte>, o: nat, n: nat, query: seq<Byte>, names: seq<Byte>)
    requires o > |buf|
    ensures Comparable(buf, o, n, query, names) && !Check(buf, o, n, query, names)
  {
  }

  /** A cut record is not looked at, and nothing after it. */
  lemma CutEndsWalk(buf: seq<Byte>, o: nat, n: nat, query: seq<Byte>, names: seq<Byte>)
    requires n == 0 || Cut(buf, o)
    ensures Comparable(buf, o, n, query, names) && !Check(buf, o, n, query, names)
  {
    if n > 0 && DataStart(buf, o) <= |buf| {
      hide OwnerEnd, Extracted, Matches;
      BeyondEnd(buf, NextRecord(buf, o), n - 1, query, names);
    }
  }

  lemma NoTexts(buf: seq<Byte>, query: seq<Byte>, names: seq<Byte>)
    ensures Texts(buf, []) == [] && !CheckTexts([], query, names)
  {
  }

  lemma NothingWhole(buf: seq<Byte>, o: nat, n: nat)
    requires SectionOf(buf, o, [], n)
    ensures n == 0 || Cut(buf, o)
  {
  }

  lemma TextsFirst(buf: seq<Byte>, records: seq<Record>, query: seq<Byte>, names: seq<Byte>)
    requires records != []
    ensures
      var names' := Overlay(names, TextOf(buf, records[0]));
      CheckTexts(Texts(buf, records), query, names)
      == (Matches(names', query) || CheckTexts(Texts(buf, records[1..]), query, names'))
  {
    hide Matches, TextOf, Overlay;
    assert Texts(buf, records)[1..] == Texts(buf, records[1..]);
  }

  /** On a well-formed section, whole or cut, the walk stays within the contract of the code and does to
      the name buffer what the texts of the whole records say. */
  lemma {:induction false} SectionChecked(
    buf: seq<Byte>, o: nat, records: seq<Record>, n: nat, query: seq<Byte>, names: seq<Byte>)
    requires SectionOf(buf, o, records, n) && Readable(records)
    ensures Comparable(buf, o, n, query, names)
    ensures Check(buf, o, n, query, names) == CheckTexts(Texts(buf, records), query, names)
    decreases |records|
  {
    hide Matches, DataStart, NextRecord, TextOf, SectionAt, Overlay, Check, Comparable, CheckTexts, Texts, Cut,
      SectionEnd;
    if records == [] {
      NoTexts(buf, query, names);
      NothingWhole(buf, o, n);
      CutEndsWalk(buf, o, n, query, names);
    } else {
      var names' := Overlay(names, TextOf(buf, records[0]));
      assert records[0] in records;
      CheckFirst(buf, o, records, n - 1, query, names);
      SectionOfRest(buf, o, records, n - 1);
      SectionChecked(buf, NextRecord(buf, o), records[1..], n - 1, query, names');
      TextsFirst(buf, records, query, names);
    }
  }

  /** An owner name that cannot be skipped is not skipped: the fields are read where it starts. */
  lemma UnskippedOwner(buf: seq<Byte>, o: nat, n: nat, query: seq<Byte>, names: seq<Byte>)
    requires SkipName(buf, o).None? && o + 10 <= |buf| && n > 0
    requires o + 10 + BigEndian(buf, o + 8) <= |buf| && |EXPECTED + query| <= |names|
    requires EXPECTED + query <= Dotted(WalkName(buf, o + 10).labels)
    ensures Check(buf, o, n, query, names)
  {
    hide SkipName, WalkName, Dotted;
    Compared(names, Dotted(WalkName(buf, o + 10).labels), query);
  }

  // ----- What the name buffer holds

  function NamesAfter(names: seq<Byte>, texts: seq<seq<Byte>>): (r: seq<Byte>)
    ensures |r| == |names|
    decreases |texts|
  {
    if texts == [] then names else NamesAfter(Overlay(names, texts[0]), texts[1..])
  }

  /** The byte the last text longer than k has left at position k. */
  function ByteLeft(texts: seq<seq<Byte>>, k: nat): Option<Byte> {
    if texts == [] then None
    else if ByteLeft(texts[1..], k).Some? then ByteLeft(texts[1..], k)
    else if k < |texts[0]| then Some(texts[0][k])
    else None
  }

  function Or(left: Option<Byte>, initial: Byte): Byte {
    if left.Some? then left.value else initial
  }

  lemma {:induction false} NamesAfterAt(names: seq<Byte>, texts: seq<seq<Byte>>, k: nat)
    requires k < |names|
    ensures NamesAfter(names, texts)[k] == Or(ByteLeft(texts, k), names[k])
    decreases |texts|
  {
    if texts != [] {
      NamesAfterAt(Overlay(names, texts[0]), texts[1..], k);
    }
  }

  lemma {:induction false} NamesAfterSnoc(names: seq<Byte>, texts: seq<seq<Byte>>, text: seq<Byte>)
    ensures NamesAfter(names, texts + [text]) == Overlay(NamesAfter(names, texts), text)
    decreases |texts|
  {
    if texts == [] {
      assert [] + [text] == [text] && [text][1..] == [];
    } else {
      assert (texts + [text])[1..] == texts[1..] + [text];
      NamesAfterSnoc(Overlay(names, texts[0]), texts[1..], text);
    }
  }

  /** The comparison after text i succeeds. */
  predicate HitAt(texts: seq<seq<Byte>>, query: seq<Byte>, names: seq<Byte>, i: nat)
    requires i < |texts|
  {
    Matches(NamesAfter(names, texts[..i + 1]), query)
  }

  lemma HitNext(texts: seq<seq<Byte>>, query: seq<Byte>, names: seq<Byte>, i: nat)
    requires i < |texts|
    ensures i == 0 ==> HitAt(texts, query, names, i) == Matches(Overlay(names, texts[0]), query)
    ensures i > 0 ==> HitAt(texts, query, names, i) == HitAt(texts[1..], query, Overlay(names, texts[0]), i - 1)
  {
    hide Matches, Overlay;
    if i > 0 {
      assert texts[..i + 1][1..] == texts[1..][..i];
    } else {
      var first := texts[..1];
      assert first[1..] == [];
      assert NamesAfter(names, first) == Overlay(names, texts[0]);
    }
  }

  lemma {:induction false} CheckIffHit(texts: seq<seq<Byte>>, query: seq<Byte>, names: seq<Byte>)
    ensures CheckTexts(texts, query, names) <==> exists i :: 0 <= i < |texts| && HitAt(texts, query, names, i)
    decreases |texts|
  {
    if texts != [] {
      hide Matches, Overlay, HitAt;
      var names' := Overlay(names, texts[0]);
      CheckIffHit(texts[1..], query, names');
      HitNext(texts, query, names, 0);
      if j: nat :| j < |texts[1..]| && HitAt(texts[1..], query, names', j) {
        HitNext(texts, query, names, j + 1);
        assert HitAt(texts, query, names, j + 1);
      }
      if i: nat :| i < |texts| && HitAt(texts, query, names, i) {
        HitNext(texts, query, names, i);
        assert i > 0 ==> HitAt(texts[1..], query, names', i - 1);
      }
    }
  }

  // ----- When the result is right

  /** The text begins with "zephyr." and the query. */
  predicate TextAnswers(text: seq<Byte>, query: seq<Byte>) {
    EXPECTED + query <= text
  }

  ghost predicate SomeTextAnswers(texts: seq<seq<Byte>>, query: seq<Byte>) {
    exists i :: 0 <= i < |texts| && TextAnswers(texts[i], query)
  }

  /** A text that ends before the comparison does, with nothing but expected bytes in it. */
  predicate Undecided(text: seq<Byte>, query: seq<Byte>) {
    text < EXPECTED + query
  }

  /** Text i is undecided, and what follows it in the buffer completes it. */
  predicate Completed(texts: seq<seq<Byte>>, query: seq<Byte>, names: seq<Byte>, i: nat)
    requires i < |texts| && |EXPECTED + query| <= |names|
  {
    Undecided(texts[i], query) &&
    forall k :: |texts[i]| <= k < |EXPECTED + query| ==>
      Or(ByteLeft(texts[..i], k), names[k]) == (EXPECTED + query)[k]
  }

  /** Text i is undecided, and no earlier text has left a wrong byte after it: some first contents of
      the name buffer complete it. */
  predicate Completable(texts: seq<seq<Byte>>, query: seq<Byte>, i: nat)
    requires i < |texts|
  {
    Undecided(texts[i], query) &&
    forall k :: |texts[i]| <= k < |EXPECTED + query| ==>
      var left := ByteLeft(texts[..i], k);
      left.None? || left.value == (EXPECTED + query)[k]
  }

  ghost predicate SomeCompletable(texts: seq<seq<Byte>>, query: seq<Byte>) {
    exists i :: 0 <= i < |texts| && Completable(texts, query, i)
  }

  lemma Compared(names: seq<Byte>, text: seq<Byte>, query: seq<Byte>)
    requires |EXPECTED + query| <= |names|
    ensures
      var wanted := EXPECTED + query;
      Matches(Overlay(names, text), query)
      <==> wanted <= text || (text < wanted && wanted[|text|..] == names[|text|..|wanted|])
  {
    var wanted := EXPECTED + query;
    var n := |wanted|;
    var after := Overlay(names, text);
    if |text| < n {
      assert after[..n] == text + names[|text|..n];
      assert wanted == wanted[..|text|] + wanted[|text|..];
      assert after[..n][..|text|] == text && after[..n][|text|..] == names[|text|..n];
    } else {
      assert after[..n] == text[..n];
    }
  }

  lemma HitIff(texts: seq<seq<Byte>>, query: seq<Byte>, names: seq<Byte>, i: nat)
    requires i < |texts| && |EXPECTED + query| <= |names|
    ensures HitAt(texts, query, names, i)
            <==> TextAnswers(texts[i], query) || Completed(texts, query, names, i)
  {
    hide Matches, Overlay, ByteLeft, Or;
    var wanted, text := EXPECTED + query, texts[i];
    var before := NamesAfter(names, texts[..i]);
    assert texts[..i + 1] == texts[..i] + [text];
    NamesAfterSnoc(names, texts[..i], text);
    Compared(before, text, query);
    forall k | 0 <= k < |wanted| ensures before[k] == Or(ByteLeft(texts[..i], k), names[k]) {
      NamesAfterAt(names, texts[..i], k);
    }
    if text < wanted {
      SameTail(wanted, before, |text|);
    }
  }

  lemma SameTail(wanted: seq<Byte>, before: seq<Byte>, m: nat)
    requires m <= |wanted| <= |before|
    ensures wanted[m..] == before[m..|wanted|] <==> forall k :: m <= k < |wanted| ==> before[k] == wanted[k]
  {
    if wanted[m..] == before[m..|wanted|] {
      forall k | m <= k < |wanted| ensures before[k] == wanted[k] {
        assert wanted[m..][k - m] == before[m..|wanted|][k - m];
      }
    }
  }

  /** For given first contents of the name buffer: the walk returns true exactly when some text answers
      or is completed by left-over bytes. */
  lemma CheckTextsExact(texts: seq<seq<Byte>>, query: seq<Byte>, names: seq<Byte>)
    requires |EXPECTED + query| <= |names|
    ensures CheckTexts(texts, query, names)
            <==> SomeTextAnswers(texts, query) || exists i :: 0 <= i < |texts| && Completed(texts, query, names, i)
  {
    hide HitAt, Completed, TextAnswers, CheckTexts;
    CheckIffHit(texts, query, names);
    forall i | 0 <= i < |texts|
      ensures HitAt(texts, query, names, i) <==> TextAnswers(texts[i], query) || Completed(texts, query, names, i)
    {
      HitIff(texts, query, names, i);
    }
  }

  lemma CompletedIsCompletable(texts: seq<seq<Byte>>, query: seq<Byte>, names: seq<Byte>, i: nat)
    requires i < |texts| && |EXPECTED + query| <= |names|
    requires Completed(texts, query, names, i)
    ensures Completable(texts, query, i)
  {
    forall k | |texts[i]| <= k < |EXPECTED + query|
      ensures ByteLeft(texts[..i], k).None? || ByteLeft(texts[..i], k).value == (EXPECTED + query)[k]
    {
      assert Or(ByteLeft(texts[..i], k), names[k]) == (EXPECTED + query)[k];
    }
  }

  lemma CompletableIsCompleted(texts: seq<seq<Byte>>, query: seq<Byte>, size: nat, i: nat) returns (names: seq<Byte>)
    requires i < |texts| && |EXPECTED + query| <= size
    requires Completable(texts, query, i)
    ensures |names| == size && Completed(texts, query, names, i)
  {
    var wanted := EXPECTED + query;
    var padding: seq<Byte> := seq(size - |wanted|, _ => 0);
    names := wanted + padding;
    forall k | |texts[i]| <= k < |wanted|
      ensures Or(ByteLeft(texts[..i], k), names[k]) == wanted[k]
    {
      var left := ByteLeft(texts[..i], k);
      assert left.None? || left.value == wanted[k];
    }
  }

  /** The walk against any notion of an answer that at least asks for a text that answers: over every
      well-formed section, its result is right whatever the uninitialised name buffer holds, if and only
      if there is an answer, or no text answers and none is completable. */
  lemma CheckMeansIff(buf: seq<Byte>, o: nat, records: seq<Record>, n: nat, query: seq<Byte>, size: nat, answered: bool)
    requires SectionOf(buf, o, records, n) && Readable(records) && |EXPECTED + query| <= size
    requires answered ==> SomeTextAnswers(Texts(buf, records), query)
    ensures
      var texts := Texts(buf, records);
      (forall names: seq<Byte> :: |names| == size ==> Check(buf, o, n, query, names) == answered)
      <==> answered || (!SomeTextAnswers(texts, query) && !SomeCompletable(texts, query))
  {
    hide Completed, Completable, TextAnswers, CheckTexts, Check, SectionOf, Comparable, SomeTextAnswers, Readable;
    var texts := Texts(buf, records);
    forall names: seq<Byte> | |names| == size
      ensures Check(buf, o, n, query, names)
              <==> SomeTextAnswers(texts, query) || exists i :: 0 <= i < |texts| && Completed(texts, query, names, i)
      ensures (exists i :: 0 <= i < |texts| && Completed(texts, query, names, i)) ==> SomeCompletable(texts, query)
    {
      SectionChecked(buf, o, records, n, query, names);
      CheckTextsExact(texts, query, names);
      if i :| 0 <= i < |texts| && Completed(texts, query, names, i) {
        CompletedIsCompletable(texts, query, names, i);
      }
    }
    var zeros: seq<Byte> := seq(size, _ => 0);
    assert SomeTextAnswers(texts, query) ==> Check(buf, o, n, query, zeros);
    if SomeCompletable(texts, query) {
      var i :| 0 <= i < |texts| && Completable(texts, query, i);
      var names := CompletableIsCompleted(texts, query, size, i);
      assert Check(buf, o, n, query, names);
    }
  }

  /** The record's data are a name, and it begins with "zephyr." and the query. */
  predicate Answers(buf: seq<Byte>, r: Record, query: seq<Byte>) {
    WalkName(buf, r.data).complete && TextAnswers(TextOf(buf, r), query)
  }

  ghost predicate SomeAnswers(buf: seq<Byte>, records: seq<Record>, query: seq<Byte>) {
    exists i :: 0 <= i < |records| && Answers(buf, records[i], query)
  }

  lemma AnswersHaveTexts(buf: seq<Byte>, records: seq<Record>, query: seq<Byte>)
    ensures SomeAnswers(buf, records, query) ==> SomeTextAnswers(Texts(buf, records), query)
  {
    hide TextOf, TextAnswers;
    if SomeAnswers(buf, records, query) {
      var i :| 0 <= i < |records| && Answers(buf, records[i], query);
      assert TextAnswers(Texts(buf, records)[i], query);
    }
  }

  /** The exact condition under which the answer walk is right: some record answers, or no record's data
      begin like an answer, and none can be completed to one by left-over bytes. */
  lemma CheckRightIff(buf: seq<Byte>, o: nat, records: seq<Record>, n: nat, query: seq<Byte>, size: nat)
    requires SectionOf(buf, o, records, n) && Readable(records) && |EXPECTED + query| <= size
    ensures
      var texts := Texts(buf, records);
      (forall names: seq<Byte> :: |names| == size ==>
         Check(buf, o, n, query, names) == SomeAnswers(buf, records, query))
      <==> SomeAnswers(buf, records, query)
           || (!SomeTextAnswers(texts, query) && !SomeCompletable(texts, query))
  {
    hide *;
    AnswersHaveTexts(buf, records, query);
    CheckMeansIff(buf, o, records, n, query, size, SomeAnswers(buf, records, query));
  }

  /** MDNS_RECORDTYPE_PTR */
  const PTR := 12

  ghost predicate SomePtrAnswers(buf: seq<Byte>, records: seq<Record>, query: seq<Byte>) {
    exists i :: 0 <= i < |records| && records[i].kind == PTR && Answers(buf, records[i], query)
  }

  /** The same when only a PTR record counts as an answer, the type that is queried. */
  lemma CheckRightForPtrIff(buf: seq<Byte>, o: nat, records: seq<Record>, n: nat, query: seq<Byte>, size: nat)
    requires SectionOf(buf, o, records, n) && Readable(records) && |EXPECTED + query| <= size
    ensures
      var texts := Texts(buf, records);
      (forall names: seq<Byte> :: |names| == size ==>
         Check(buf, o, n, query, names) == SomePtrAnswers(buf, records, query))
      <==> SomePtrAnswers(buf, records, query)
           || (!SomeTextAnswers(texts, query) && !SomeCompletable(texts, query))
  {
    hide SectionOf, Readable, Check, SomeTextAnswers, SomeCompletable, Answers;
    AnswersHaveTexts(buf, records, query);
    CheckMeansIff(buf, o, records, n, query, size, SomePtrAnswers(buf, records, query));
  }

  // ----- Sections of names

  /** Every record's data are a name within the limits of the code. */
  predicate AllNames(buf: seq<Byte>, records: seq<Record>) {
    forall r :: r in records ==> WalkName(buf, r.data).complete
  }

  lemma NamesAnswer(buf: seq<Byte>, records: seq<Record>, query: seq<Byte>)
    requires AllNames(buf, records)
    ensures SomeAnswers(buf, records, query) <==> SomeTextAnswers(Texts(buf, records), query)
  {
    hide TextOf, TextAnswers, WalkName;
    AnswersHaveTexts(buf, records, query);
    if SomeTextAnswers(Texts(buf, records), query) {
      var i :| 0 <= i < |records| && TextAnswers(Texts(buf, records)[i], query);
      assert records[i] in records && Answers(buf, records[i], query);
    }
  }

  /** Then only left-over bytes can mislead the walk. */
  lemma CheckRightIffNotCompletable(buf: seq<Byte>, o: nat, records: seq<Record>, n: nat, query: seq<Byte>, size: nat)
    requires SectionOf(buf, o, records, n) && Readable(records) && AllNames(buf, records)
    requires |EXPECTED + query| <= size
    ensures
      (forall names: seq<Byte> :: |names| == size ==>
         Check(buf, o, n, query, names) == SomeAnswers(buf, records, query))
      <==> SomeAnswers(buf, records, query) || !SomeCompletable(Texts(buf, records), query)
  {
    hide *;
    NamesAnswer(buf, records, query);
    CheckRightIff(buf, o, records, n, query, size);
  }

  /** And when no text stops inside the comparison, they do not matter either. */
  lemma CheckFindsAnswers(
    buf: seq<Byte>, o: nat, records: seq<Record>, n: nat, query: seq<Byte>, names: seq<Byte>)
    requires SectionOf(buf, o, records, n) && Readable(records) && AllNames(buf, records)
    requires |EXPECTED + query| <= |names|
    requires forall text :: text in Texts(buf, records) ==> !Undecided(text, query)
    ensures Check(buf, o, n, query, names) <==> SomeAnswers(buf, records, query)
  {
    hide Check, SectionOf, SomeAnswers, Undecided, ByteLeft, Readable, AllNames, TextOf;
    assert !SomeCompletable(Texts(buf, records), query);
    CheckRightIffNotCompletable(buf, o, records, n, query, |names|);
  }

  /** With a single record nothing has been written after its text, so the text must differ from what is
      looked for before it stops, or be all of it, and the data a name. */
  lemma SingleRecordExact(buf: seq<Byte>, o: nat, record: Record, n: nat, query: seq<Byte>, size: nat)
    requires SectionOf(buf, o, [record], n) && record.length >= 2 && |EXPECTED + query| <= size
    ensures
      var text := TextOf(buf, record);
      (forall names: seq<Byte> :: |names| == size ==>
         Check(buf, o, n, query, names) == Answers(buf, record, query))
      <==> Answers(buf, record, query) || !(TextAnswers(text, query) || Undecided(text, query))
  {
    hide Check, SectionOf, TextOf, TextAnswers, WalkName;
    var texts := Texts(buf, [record]);
    CheckRightIff(buf, o, [record], n, query, size);
    assert texts[..0] == [];
    assert SomeAnswers(buf, [record], query) <==> Answers(buf, [record][0], query);
    assert SomeTextAnswers(texts, query) <==> TextAnswers(texts[0], query);
    assert SomeCompletable(texts, query) <==> Completable(texts, query, 0);
  }
}
