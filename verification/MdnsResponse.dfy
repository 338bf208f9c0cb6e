/** Whole responses: what mdns_query_recv_internal makes of a well-formed one, and well-formed ones it
    takes for an answer although no record answers. */
module MdnsResponse {
  import opened MdnsName
  import opened MdnsEncode
  import opened MdnsRoundTrip
  import opened MdnsAnswer
  import opened MdnsSection
  import opened MdnsCompress

  // ----- Well-formed responses

  /** One question: its name and how it is laid out. */
  datatype Question = Question(layout: Trace, name: seq<Label>)

  predicate QuestionsAt(buf: seq<Byte>, o: nat, questions: seq<Question>)
    decreases |questions|
  {
    questions == [] ||
    (o < |buf| && Decodes(buf, o, questions[0].layout, questions[0].name)
     && QuestionsAt(buf, WireEnd(buf, o, questions[0].layout) + 4, questions[1..]))
  }

  function QuestionsEnd(buf: seq<Byte>, o: nat, questions: seq<Question>): nat
    requires QuestionsAt(buf, o, questions)
    decreases |questions|
  {
    if questions == [] then o
    else QuestionsEnd(buf, WireEnd(buf, o, questions[0].layout) + 4, questions[1..])
  }

  /** A response as RFC 1035, section 4.1, lays it out: header, questions, answers of any type. The
      records listed are there whole; when there should be more, the next one is cut. */
  predicate WellFormed(buf: seq<Byte>, questions: seq<Question>, records: seq<Record>) {
    && |buf| >= HEADER_LENGTH
    && QuestionCount(buf) == |questions| && QuestionsAt(buf, HEADER_LENGTH, questions)
    && SectionOf(buf, QuestionsEnd(buf, HEADER_LENGTH, questions), records, AnswerCount(buf))
  }

  lemma QuestionsFirst(buf: seq<Byte>, o: nat, questions: seq<Question>)
    requires QuestionsAt(buf, o, questions) && questions != []
    ensures o < |buf|
    ensures
      var next := WireEnd(buf, o, questions[0].layout) + 4;
      && QuestionsAt(buf, next, questions[1..])
      && QuestionsEnd(buf, o, questions) == QuestionsEnd(buf, next, questions[1..])
      && AfterQuestions(buf, o, |questions|) == AfterQuestions(buf, next, |questions| - 1)
  {
    hide WalkName, SkipName, Decodes, WireEnd;
    WalkIffDecodes(buf, o);
  }

  lemma NoQuestions(buf: seq<Byte>, o: nat)
    ensures QuestionsEnd(buf, o, []) == o && AfterQuestions(buf, o, 0) == Some(o)
  {
  }

  lemma {:induction false} QuestionsSkipped(buf: seq<Byte>, o: nat, questions: seq<Question>)
    requires QuestionsAt(buf, o, questions)
    ensures AfterQuestions(buf, o, |questions|) == Some(QuestionsEnd(buf, o, questions))
    decreases |questions|
  {
    hide QuestionsAt, QuestionsEnd, AfterQuestions, WireEnd;
    if questions == [] {
      NoQuestions(buf, o);
    } else {
      QuestionsFirst(buf, o, questions);
      QuestionsSkipped(buf, WireEnd(buf, o, questions[0].layout) + 4, questions[1..]);
    }
  }

  lemma ResponseChecked(
    buf: seq<Byte>, questions: seq<Question>, records: seq<Record>, query: seq<Byte>, names: seq<Byte>)
    requires WellFormed(buf, questions, records) && Readable(records)
    ensures ComparableResponse(buf, query, names)
    ensures CheckResponse(buf, query, names) == CheckTexts(Texts(buf, records), query, names)
    ensures CheckResponse(buf, query, names)
            == Check(buf, QuestionsEnd(buf, HEADER_LENGTH, questions), AnswerCount(buf), query, names)
  {
    hide Check, Comparable, CheckTexts, SectionOf, QuestionsAt, QuestionsEnd, Texts, Readable;
    QuestionsSkipped(buf, HEADER_LENGTH, questions);
    SectionChecked(buf, QuestionsEnd(buf, HEADER_LENGTH, questions), records, AnswerCount(buf), query, names);
  }

  /** mdns_query_recv_internal on what the receive buffer holds of a well-formed response: it finds
      every answer, and nothing else unless some whole record's data begin like an answer, or can be
      completed to one by left-over bytes. */
  method ReceiveWellFormed(
    datagram: seq<Byte>, query: seq<Byte>, names: array<Byte>,
    ghost questions: seq<Question>, ghost records: seq<Record>)
    returns (found: bool)
    requires WellFormed(Received(datagram), questions, records) && Readable(records)
    requires |EXPECTED| + |query| <= names.Length
    modifies names
    ensures SomeAnswers(Received(datagram), records, query) ==> found
    ensures
      var texts := Texts(Received(datagram), records);
      !SomeTextAnswers(texts, query) && !SomeCompletable(texts, query) ==> !found
  {
    hide Check, CheckResponse, SectionOf, QuestionsAt, QuestionsEnd, SomeAnswers, SomeTextAnswers, SomeCompletable,
      Texts, Readable, Received;
    ghost var buf := Received(datagram);
    ghost var o := QuestionsEnd(buf, HEADER_LENGTH, questions);
    ResponseChecked(buf, questions, records, query, names[..]);
    CheckRightIff(buf, o, records, AnswerCount(buf), query, names.Length);
    AnswersHaveTexts(buf, records, query);
    found := QueryRecv(datagram, query, names);
  }

  /** A response that is cut before its first record ends is no answer. */
  lemma CutResponseRefused(buf: seq<Byte>, questions: seq<Question>, query: seq<Byte>, names: seq<Byte>)
    requires WellFormed(buf, questions, [])
    ensures ComparableResponse(buf, query, names) && !CheckResponse(buf, query, names)
  {
    hide WellFormed, CheckResponse, ComparableResponse, CheckTexts;
    ResponseChecked(buf, questions, [], query, names);
    NoTexts(buf, query, names);
  }

  // ----- Responses without compression

  /** A record with its owner name, the eight bytes of type, class and time to live, and its data. */
  datatype Entry = Entry(owner: seq<Label>, fields: seq<Byte>, data: seq<Byte>)
  {
    ghost predicate Valid() {
      && AllPlain(owner) && |owner| <= MAX_LABELS
      && |fields| == 8 && 2 <= |data| < 0x10000
    }

    function Bytes(): seq<Byte> {
      Encode(owner) + fields + TwoBytes(|data|) + data
    }
  }

  function TwoBytes(n: nat): (bytes: seq<Byte>)
    ensures |bytes| == 2
  {
    [n / 0x100 % 0x100, n % 0x100]
  }

  ghost predicate AllValid(entries: seq<Entry>) {
    forall e :: e in entries ==> e.Valid()
  }

  function SectionBytes(entries: seq<Entry>): seq<Byte> {
    if entries == [] then [] else entries[0].Bytes() + SectionBytes(entries[1..])
  }

  function PlainLayout(n: nat): Trace {
    if n == 0 then Root else More(PlainLayout(n - 1))
  }

  function RecordOf(o: nat, e: Entry): Record {
    var kind := if |e.fields| >= 2 then BigEndian(e.fields, 0) else 0;
    Record(o, PlainLayout(|e.owner|), e.owner, kind, o + |Encode(e.owner)| + 10, |e.data|)
  }

  function RecordsFrom(o: nat, entries: seq<Entry>): (records: seq<Record>)
    ensures |records| == |entries|
    ensures forall i :: 0 <= i < |entries| ==> records[i].length == |entries[i].data|
    decreases |entries|
  {
    if entries == [] then [] else [RecordOf(o, entries[0])] + RecordsFrom(o + |entries[0].Bytes()|, entries[1..])
  }

  /** The records' data are those of the entries. */
  predicate Holds(buf: seq<Byte>, records: seq<Record>, entries: seq<Entry>) {
    |records| == |entries| &&
    forall i :: 0 <= i < |entries| ==>
      var end := records[i].data + |entries[i].data|;
      end <= |buf| && buf[records[i].data..end] == entries[i].data
  }

  lemma {:induction false} PlainLayoutBounded(n: nat)
    ensures HopsBounded(PlainLayout(n))
  {
    if n > 0 {
      PlainLayoutBounded(n - 1);
    }
  }

  lemma {:induction false} EncodedExpands(buf: seq<Byte>, o: nat, labels: seq<Label>)
    requires EncodedAt(buf, o, labels) && AllPlain(labels)
    ensures o < |buf| && Expands(buf, o, PlainLayout(|labels|), labels)
    ensures WireEnd(buf, o, PlainLayout(|labels|)) == o + |Encode(labels)|
    decreases |labels|
  {
    hide EncodedAt, Encode;
    EncodedFirst(buf, o, labels);
    EncodeLength(labels);
    if labels != [] {
      EncodedExpands(buf, o + 1 + |labels[0]|, labels[1..]);
    }
  }

  lemma EntryAt(before: seq<Byte>, e: Entry, after: seq<Byte>)
    requires e.Valid()
    ensures
      var buf := before + e.Bytes() + after;
      var data := |before| + |Encode(e.owner)| + 10;
      && EncodedAt(buf, |before|, e.owner)
      && data + |e.data| == |before| + |e.Bytes()| <= |buf| && buf[data..data + |e.data|] == e.data
      && BigEndian(buf, data - 2) == |e.data| && BigEndian(buf, data - 10) == BigEndian(e.fields, 0)
  {
    hide Encode;
    var buf := before + e.Bytes() + after;
    var owner, d := Encode(e.owner), |before| + |Encode(e.owner)| + 10;
    assert buf[|before|..|before| + |owner|] == owner;
    assert buf[d..d + |e.data|] == e.data;
    assert buf[d - 10] == e.fields[0] && buf[d - 9] == e.fields[1];
    assert buf[d - 2] == |e.data| / 0x100 && buf[d - 1] == |e.data| % 0x100;
  }

  lemma SectionCons(buf: seq<Byte>, o: nat, e: Entry, records: seq<Record>)
    requires e.Valid() && EncodedAt(buf, o, e.owner)
    requires
      var data := o + |Encode(e.owner)| + 10;
      && data + |e.data| <= |buf| && BigEndian(buf, data - 2) == |e.data|
      && BigEndian(buf, data - 10) == BigEndian(e.fields, 0)
      && SectionAt(buf, data + |e.data|, records)
    ensures SectionAt(buf, o, [RecordOf(o, e)] + records)
  {
    hide Encode, Expands, WireEnd, EncodedAt, AllPlain, BigEndian, HopsBounded;
    EncodedExpands(buf, o, e.owner);
    PlainLayoutBounded(|e.owner|);
    var all := [RecordOf(o, e)] + records;
    assert all[0] == RecordOf(o, e) && all[1..] == records;
    assert Decodes(buf, o, PlainLayout(|e.owner|), e.owner);
  }

  lemma HoldsCons(buf: seq<Byte>, o: nat, e: Entry, records: seq<Record>, entries: seq<Entry>)
    requires Holds(buf, records, entries)
    requires
      var data := o + |Encode(e.owner)| + 10;
      data + |e.data| <= |buf| && buf[data..data + |e.data|] == e.data
    ensures Holds(buf, [RecordOf(o, e)] + records, [e] + entries)
  {
    hide Encode, BigEndian;
  }

  lemma SectionEmpty(buf: seq<Byte>, o: nat)
    ensures SectionAt(buf, o, []) && Holds(buf, [], [])
  {}

  lemma BytesFirst(o: nat, entries: seq<Entry>)
    ensures entries == [] ==> SectionBytes(entries) == [] && RecordsFrom(o, entries) == []
    ensures
      entries != [] ==>
        && SectionBytes(entries) == entries[0].Bytes() + SectionBytes(entries[1..])
        && RecordsFrom(o, entries) == [RecordOf(o, entries[0])] + RecordsFrom(o + |entries[0].Bytes()|, entries[1..])
  {
    hide Entry.Bytes, RecordOf;
  }

  /** Encoding entries one after the other gives a well-formed section with those data. */
  lemma {:induction false} SectionEncoded(before: seq<Byte>, entries: seq<Entry>)
    requires AllValid(entries)
    ensures SectionAt(before + SectionBytes(entries), |before|, RecordsFrom(|before|, entries))
    ensures Holds(before + SectionBytes(entries), RecordsFrom(|before|, entries), entries)
    decreases |entries|
  {
    hide SectionAt, Holds, RecordsFrom, SectionBytes, Encode, EncodedAt, Entry.Bytes, Entry.Valid, RecordOf, BigEndian;
    BytesFirst(|before|, entries);
    if entries == [] {
      SectionEmpty(before, |before|);
      assert before + [] == before;
    } else {
      var e, rest := entries[0], SectionBytes(entries[1..]);
      var before' := before + e.Bytes();
      EntryAt(before, e, rest);
      SectionEncoded(before', entries[1..]);
      assert before + (e.Bytes() + rest) == before' + rest;
      assert entries == [e] + entries[1..];
      SectionCons(before' + rest, |before|, e, RecordsFrom(|before'|, entries[1..]));
      HoldsCons(before' + rest, |before|, e, RecordsFrom(|before'|, entries[1..]), entries[1..]);
    }
  }

  /** A response with no questions and the entries as its answers. */
  function Response(entries: seq<Entry>): seq<Byte> {
    ResponseHeader(|entries|) + SectionBytes(entries)
  }

  function ResponseHeader(n: nat): (bytes: seq<Byte>)
    ensures |bytes| == HEADER_LENGTH
  {
    [0, 0, 0x84, 0, 0, 0] + TwoBytes(n) + [0, 0, 0, 0]
  }

  /** The records of such a response. */
  function ResponseRecords(entries: seq<Entry>): (records: seq<Record>)
    ensures |records| == |entries|
  {
    RecordsFrom(HEADER_LENGTH, entries)
  }

  lemma ResponseEncoded(entries: seq<Entry>)
    requires AllValid(entries) && |entries| < 0x10000
    ensures WellFormed(Response(entries), [], ResponseRecords(entries)) && Readable(ResponseRecords(entries))
    ensures Holds(Response(entries), ResponseRecords(entries), entries)
  {
    hide SectionAt, SectionBytes, Holds;
    var buf, records := Response(entries), ResponseRecords(entries);
    SectionEncoded(ResponseHeader(|entries|), entries);
    assert AnswerCount(buf) == |records|;
    assert buf[4] == 0 && buf[5] == 0 && buf[6] == |entries| / 0x100 && buf[7] == |entries| % 0x100;
    forall r | r in records ensures r.length >= 2 {
      var i :| 0 <= i < |records| && records[i] == r;
      assert entries[i] in entries;
    }
  }

  // ----- What their texts are

  /** Data that encode a name are read as that name. */
  lemma NameHeld(buf: seq<Byte>, records: seq<Record>, entries: seq<Entry>, i: nat, labels: seq<Label>)
    requires Holds(buf, records, entries) && i < |entries| && entries[i].data == Encode(labels)
    requires AllPlain(labels) && |labels| <= MAX_LABELS
    ensures WalkName(buf, records[i].data) == Walk(labels, true)
  {
    hide Encode, WalkFrom;
    WalkEncoded(buf, records[i].data, labels, MAX_LABELS + 1);
  }

  lemma NothingBehind(buf: seq<Byte>, budget: nat)
    ensures WalkFrom(buf, |buf|, budget) == Walk([], false)
  {
  }

  lemma PlainSizes(labels: seq<Label>)
    requires AllPlain(labels)
    ensures forall l :: l in labels ==> 0 < |l| < 0xc0
  {
    forall l | l in labels ensures 0 < |l| < 0xc0 {
      assert Plain(l);
    }
  }

  lemma LabelsAtEnd(buf: seq<Byte>, o: nat, labels: seq<Label>)
    requires AllPlain(labels) && |labels| <= MAX_LABELS
    requires o + |LabelBytes(labels)| == |buf| && buf[o..o + |LabelBytes(labels)|] == LabelBytes(labels)
    ensures WalkName(buf, o) == Walk(labels, false)
  {
    hide LabelBytes, WalkFrom, AllPlain;
    PlainSizes(labels);
    WalkFront(buf, o, labels, MAX_LABELS + 1);
    NothingBehind(buf, MAX_LABELS + 1 - |labels|);
    assert labels + [] == labels;
  }

  /** Data that are labels without a root, at the end of the packet, are no name; but the labels are
      read all the same. */
  lemma LabelsHeld(buf: seq<Byte>, records: seq<Record>, entries: seq<Entry>, i: nat, labels: seq<Label>)
    requires Holds(buf, records, entries) && i < |entries| && entries[i].data == LabelBytes(labels)
    requires AllPlain(labels) && |labels| <= MAX_LABELS && records[i].data + |entries[i].data| == |buf|
    ensures WalkName(buf, records[i].data) == Walk(labels, false)
  {
    hide LabelBytes, WalkFrom, WalkName, AllPlain;
    var o := records[i].data;
    assert o + |LabelBytes(labels)| == |buf| && buf[o..o + |LabelBytes(labels)|] == LabelBytes(labels);
    LabelsAtEnd(buf, o, labels);
  }

  /** "zephyr" */
  const ZEPHYR: Label := [122, 101, 112, 104, 121, 114]

  lemma InstanceText(instance: Label, service: seq<Label>)
    requires service != [] && AllPlain(service)
    ensures Dotted([instance] + service) == instance + [DOT] + Join(service) + [DOT]
    ensures Dotted([ZEPHYR]) == EXPECTED
  {
    hide Join;
    JoinShape(service);
    assert ([instance] + service)[1..] == service;
    assert Dotted([instance] + service) == instance + [DOT] + Dotted(service);
    assert Dotted([ZEPHYR]) == ZEPHYR + [DOT] + Dotted([]);
    assert instance + [DOT] + (Join(service) + [DOT]) == instance + [DOT] + Join(service) + [DOT];
  }

  lemma InstanceSizes(instance: Label, service: seq<Label>)
    requires service != [] && AllPlain(service)
    ensures |Encode([instance] + service)| == |instance| + |Join(service)| + 3
    ensures |LabelBytes([instance] + service)| == |instance| + |Join(service)| + 2
    ensures |Encode([ZEPHYR])| == 8
  {
    hide Encode, Join, LabelBytes;
    JoinShape(service);
    EncodeLength([instance] + service);
    assert ([instance] + service)[1..] == service;
    EncodeIsLabelBytes([instance] + service);
    EncodeLength([ZEPHYR]);
    EncodeLength([]);
    assert [ZEPHYR][1..] == [];
  }

  lemma PlainService(instance: Label, service: seq<Label>)
    requires AllPlain([instance] + service)
    ensures AllPlain(service) && AllPlain([ZEPHYR])
  {
    assert forall l :: l in service ==> l in [instance] + service;
    assert Plain(ZEPHYR);
  }

  // ----- Left-over bytes

  /** An instance of the queried service on another device, then the bare name "zephyr.". */
  function FalseAnswer(instance: Label, service: seq<Label>, owner: seq<Label>, fields: seq<Byte>): seq<Entry> {
    [Entry(owner, fields, Encode([instance] + service)), Entry(owner, fields, Encode([ZEPHYR]))]
  }

  lemma FalseAnswerTexts(
    buf: seq<Byte>, records: seq<Record>, instance: Label, service: seq<Label>, owner: seq<Label>, fields: seq<Byte>)
    requires service != [] && AllPlain([instance] + service) && |service| < MAX_LABELS
    requires Holds(buf, records, FalseAnswer(instance, service, owner, fields))
    ensures AllNames(buf, records)
    ensures Texts(buf, records) == [instance + [DOT] + Join(service) + [DOT], EXPECTED]
  {
    hide Join, Encode, WalkName, Dotted, Plain, AllPlain, Texts;
    var entries := FalseAnswer(instance, service, owner, fields);
    PlainService(instance, service);
    InstanceText(instance, service);
    assert |[instance] + service| <= MAX_LABELS;
    assert |records| == 2 by { assert |entries| == 2; }
    NameHeld(buf, records, entries, 0, [instance] + service);
    NameHeld(buf, records, entries, 1, [ZEPHYR]);
    assert TextOf(buf, records[0]) == instance + [DOT] + Join(service) + [DOT];
    assert TextOf(buf, records[1]) == EXPECTED;
  }

  lemma FalseEntriesValid(instance: Label, service: seq<Label>, owner: seq<Label>, fields: seq<Byte>)
    requires |instance| == 6 && service != [] && AllPlain([instance] + service)
    requires AllPlain(owner) && |owner| <= MAX_LABELS && |fields| == 8 && |Join(service)| < 0xff00
    ensures AllValid(FalseAnswer(instance, service, owner, fields))
    ensures |Response(FalseAnswer(instance, service, owner, fields))|
            == 2 * |Encode(owner)| + |Join(service)| + 49
  {
    hide Encode, Join, Plain;
    PlainService(instance, service);
    InstanceSizes(instance, service);
    var entries := FalseAnswer(instance, service, owner, fields);
    assert entries[1..] == [entries[1]] && entries[1..][1..] == [];
    assert SectionBytes(entries) == entries[0].Bytes() + (entries[1].Bytes() + SectionBytes([]));
  }

  lemma FalseTextsCompleted(instance: Label, query: seq<Byte>, names: seq<Byte>)
    requires |instance| == 6 && query != [] && |EXPECTED + query| <= |names|
    ensures
      var texts := [instance + [DOT] + query + [DOT], EXPECTED];
      && Completed(texts, query, names, 1)
      && (SomeTextAnswers(texts, query) <==> instance == ZEPHYR)
  {
    var wanted, first := EXPECTED + query, instance + [DOT] + query + [DOT];
    var texts := [first, EXPECTED];
    assert EXPECTED == ZEPHYR + [DOT];
    assert texts[..1] == [first] && texts[0] == first && texts[1] == EXPECTED;
    forall k | |EXPECTED| <= k < |wanted|
      ensures Or(ByteLeft(texts[..1], k), names[k]) == wanted[k]
    {
      assert ByteLeft([first], k) == Some(first[k]) && first[k] == query[k - 7];
    }
    if TextAnswers(first, query) {
      assert first[..6] == wanted[..6] && first[..6] == instance && wanted[..6] == ZEPHYR;
    }
    if instance == ZEPHYR {
      assert first[..|wanted|] == wanted;
      assert TextAnswers(texts[0], query);
    }
  }

  /** The comparison does not look at the extracted length. Whatever service is queried, and whatever
      the name buffer holds at first, a response with the names "<six bytes>.<service>" and "zephyr."
      is taken for an answer, because the end of the first name completes the second; and unless the
      six bytes are "zephyr" themselves, no record answers. The size of the response tells whether the
      receive buffer holds it. */
  lemma LeftOverBytesAnswer(
    instance: Label, service: seq<Label>, owner: seq<Label>, fields: seq<Byte>, names: seq<Byte>)
    requires |instance| == 6 && service != [] && |service| < MAX_LABELS && |fields| == 8
    requires AllPlain([instance] + service) && AllPlain(owner) && |owner| <= MAX_LABELS
    requires |EXPECTED + Join(service)| <= |names| && |Join(service)| < 0xff00
    ensures
      var entries := FalseAnswer(instance, service, owner, fields);
      var records := ResponseRecords(entries);
      && WellFormed(Response(entries), [], records) && Readable(records)
      && |Response(entries)| == 2 * |Encode(owner)| + |Join(service)| + 49
      && CheckResponse(Response(entries), Join(service), names)
      && (SomeAnswers(Response(entries), records, Join(service)) <==> instance == ZEPHYR)
  {
    hide Check, Response, ResponseRecords, Join, WellFormed, CheckTexts, CheckResponse, Readable, Holds, Texts,
      Plain, Encode, AllNames, Completed;
    var entries := FalseAnswer(instance, service, owner, fields);
    var buf, records := Response(entries), ResponseRecords(entries);
    PlainService(instance, service);
    FalseEntriesValid(instance, service, owner, fields);
    ResponseEncoded(entries);
    FalseAnswerTexts(buf, records, instance, service, owner, fields);
    JoinShape(service);
    ResponseChecked(buf, [], records, Join(service), names);
    CheckTextsExact(Texts(buf, records), Join(service), names);
    FalseTextsCompleted(instance, Join(service), names);
    NamesAnswer(buf, records, Join(service));
  }

  // ----- Data that are no name, and other types

  /** A response with one record. */
  lemma OneRecord(e: Entry)
    requires e.Valid()
    ensures WellFormed(Response([e]), [], ResponseRecords([e])) && Readable(ResponseRecords([e]))
    ensures Holds(Response([e]), ResponseRecords([e]), [e])
    ensures |Response([e])| == 22 + |Encode(e.owner)| + |e.data|
    ensures ResponseRecords([e]) == [RecordOf(HEADER_LENGTH, e)]
    ensures ResponseRecords([e])[0].data + |e.data| == |Response([e])|
  {
    ResponseEncoded([e]);
    hide Encode, WellFormed, Readable, Holds;
    assert [e][1..] == [];
    assert SectionBytes([e]) == e.Bytes() + [];
  }

  lemma ZephyrText(buf: seq<Byte>, r: Record, service: seq<Label>, complete: bool)
    requires service != [] && AllPlain(service)
    requires WalkName(buf, r.data) == Walk([ZEPHYR] + service, complete)
    ensures TextAnswers(TextOf(buf, r), Join(service))
    ensures Answers(buf, r, Join(service)) <==> complete
  {
    hide Join, Dotted, WalkName;
    InstanceText(ZEPHYR, service);
    assert EXPECTED == ZEPHYR + [DOT];
    assert Dotted([ZEPHYR] + service) == EXPECTED + Join(service) + [DOT];
    assert (EXPECTED + Join(service) + [DOT])[..|EXPECTED + Join(service)|] == EXPECTED + Join(service);
  }

  lemma OneTextAnswers(buf: seq<Byte>, r: Record, query: seq<Byte>, names: seq<Byte>)
    requires WellFormed(buf, [], [r]) && Readable([r]) && |EXPECTED + query| <= |names|
    requires TextAnswers(TextOf(buf, r), query)
    ensures CheckResponse(buf, query, names)
    ensures SomeAnswers(buf, [r], query) <==> Answers(buf, r, query)
    ensures SomePtrAnswers(buf, [r], query) <==> r.kind == PTR && Answers(buf, r, query)
  {
    hide WellFormed, Readable, CheckResponse, CheckTexts, TextOf, TextAnswers, Answers, Completed;
    ResponseChecked(buf, [], [r], query, names);
    CheckTextsExact(Texts(buf, [r]), query, names);
    assert TextAnswers(Texts(buf, [r])[0], query);
    assert SomeAnswers(buf, [r], query) <==> Answers(buf, [r][0], query);
    assert SomePtrAnswers(buf, [r], query) <==> [r][0].kind == PTR && Answers(buf, [r][0], query);
  }

  lemma ZephyrPlain(service: seq<Label>)
    requires AllPlain(service)
    ensures AllPlain([ZEPHYR] + service)
  {
    assert Plain(ZEPHYR);
  }

  /** An extraction that fails still leaves the labels it has met in the name buffer, and they are
      compared: one record whose data are the labels without a root, as the strings of a TXT record are,
      is taken for an answer whatever the name buffer holds at first. */
  lemma LabelsWithoutRootAnswer(service: seq<Label>, owner: seq<Label>, fields: seq<Byte>, names: seq<Byte>)
    requires service != [] && AllPlain(service) && |service| < MAX_LABELS && |Join(service)| < 0xff00
    requires AllPlain(owner) && |owner| <= MAX_LABELS && |fields| == 8
    requires |EXPECTED + Join(service)| <= |names|
    ensures
      var e := Entry(owner, fields, LabelBytes([ZEPHYR] + service));
      && WellFormed(Response([e]), [], ResponseRecords([e])) && Readable(ResponseRecords([e]))
      && |Response([e])| == |Encode(owner)| + |Join(service)| + 30
      && CheckResponse(Response([e]), Join(service), names)
      && !SomeAnswers(Response([e]), ResponseRecords([e]), Join(service))
  {
    hide WellFormed, Readable, CheckResponse, Holds, Response, ResponseRecords, Join, LabelBytes, Encode, Plain,
      WalkName, Answers, TextOf, TextAnswers;
    var e := Entry(owner, fields, LabelBytes([ZEPHYR] + service));
    var buf, records := Response([e]), ResponseRecords([e]);
    InstanceSizes(ZEPHYR, service);
    ZephyrPlain(service);
    OneRecord(e);
    LabelsHeld(buf, records, [e], 0, [ZEPHYR] + service);
    ZephyrText(buf, records[0], service, false);
    assert records == [records[0]];
    OneTextAnswers(buf, records[0], Join(service), names);
  }

  /** The record type is not looked at: any record whose data are the name answers. */
  lemma TypeIgnored(service: seq<Label>, owner: seq<Label>, fields: seq<Byte>, names: seq<Byte>)
    requires service != [] && AllPlain(service) && |service| < MAX_LABELS && |Join(service)| < 0xff00
    requires AllPlain(owner) && |owner| <= MAX_LABELS && |fields| == 8
    requires |EXPECTED + Join(service)| <= |names|
    ensures
      var e := Entry(owner, fields, Encode([ZEPHYR] + service));
      && WellFormed(Response([e]), [], ResponseRecords([e])) && Readable(ResponseRecords([e]))
      && |Response([e])| == |Encode(owner)| + |Join(service)| + 31
      && CheckResponse(Response([e]), Join(service), names)
      && (SomePtrAnswers(Response([e]), ResponseRecords([e]), Join(service)) <==> BigEndian(fields, 0) == PTR)
  {
    hide WellFormed, Readable, CheckResponse, Holds, Response, ResponseRecords, Join, LabelBytes, Encode, Plain,
      WalkName, Answers, TextOf, TextAnswers, BigEndian;
    var e := Entry(owner, fields, Encode([ZEPHYR] + service));
    var buf, records := Response([e]), ResponseRecords([e]);
    InstanceSizes(ZEPHYR, service);
    ZephyrPlain(service);
    OneRecord(e);
    NameHeld(buf, records, [e], 0, [ZEPHYR] + service);
    ZephyrText(buf, records[0], service, true);
    assert records == [records[0]];
    OneTextAnswers(buf, records[0], Join(service), names);
  }

  // ----- The query of the discovery thread

  /** "_greybus._tcp.local", in its labels and as it is written */
  const SERVICE: seq<Label> := [[95, 103, 114, 101, 121, 98, 117, 115], [95, 116, 99, 112], [108, 111, 99, 97, 108]]
  const QUERY: seq<Byte> := [95, 103, 114, 101, 121, 98, 117, 115, 46, 95, 116, 99, 112, 46, 108, 111, 99, 97, 108]

  lemma QueryIsService()
    ensures Join(SERVICE) == QUERY && AllPlain(SERVICE)
  {
    assert SERVICE[1..][1..] == [SERVICE[2]];
    assert Join(SERVICE[1..]) == SERVICE[1] + [DOT] + SERVICE[2];
    assert forall l :: l in SERVICE ==> l == SERVICE[0] || l == SERVICE[1] || l == SERVICE[2];
  }

  lemma SensorPlain(instance: Label)
    requires Plain(instance)
    ensures AllPlain([instance] + SERVICE)
  {
    QueryIsService();
  }

  /** So a response of 70 bytes that names a device called "sensor" which offers the service, next to a
      record for "zephyr.", is taken for a Greybus node. */
  lemma SensorTakenForNode(fields: seq<Byte>, names: seq<Byte>)
    requires |fields| == 8 && |names| == 100
    ensures
      var entries := FalseAnswer([115, 101, 110, 115, 111, 114], SERVICE, [], fields);
      && |Response(entries)| == 70 && Received(Response(entries)) == Response(entries)
      && WellFormed(Response(entries), [], ResponseRecords(entries))
      && CheckResponse(Response(entries), QUERY, names)
      && !SomeAnswers(Response(entries), ResponseRecords(entries), QUERY)
  {
    hide Response, ResponseRecords, WellFormed, CheckResponse, SomeAnswers, Readable;
    var instance: Label := [115, 101, 110, 115, 111, 114];
    QueryIsService();
    assert Plain(instance);
    SensorPlain(instance);
    assert instance[0] != ZEPHYR[0];
    LeftOverBytesAnswer(instance, SERVICE, [], fields, names);
  }

  /** And so is one of 50 bytes with a TXT record that holds the strings "zephyr", "_greybus", "_tcp" and
      "local", though it names nothing. */
  lemma TextTakenForNode(fields: seq<Byte>, names: seq<Byte>)
    requires |fields| == 8 && fields[..2] == [0, 16] && |names| == 100
    ensures
      var e := Entry([], fields, LabelBytes([ZEPHYR] + SERVICE));
      && |Response([e])| == 50 && Received(Response([e])) == Response([e])
      && WellFormed(Response([e]), [], ResponseRecords([e]))
      && CheckResponse(Response([e]), QUERY, names)
      && !SomeAnswers(Response([e]), ResponseRecords([e]), QUERY)
  {
    hide Response, ResponseRecords, WellFormed, CheckResponse, SomeAnswers, Readable, LabelBytes;
    QueryIsService();
    LabelsWithoutRootAnswer(SERVICE, [], fields, names);
  }

  /** A datagram of 223 bytes with one TXT record of 200 bytes of text, of which the receive buffer holds
      77: whatever the text is, and whatever the name buffer holds, it is no answer. */
  lemma CutTextRefused(text: seq<Byte>, names: seq<Byte>)
    requires |text| == 200
    ensures
      var datagram := [0, 0, 0x84, 0, 0, 0, 0, 1, 0, 0, 0, 0] + [0] + [0, 16, 0, 1, 0, 0, 0, 120] + [0, 200] + text;
      && |datagram| == 223 && WellFormed(Received(datagram), [], [])
      && !CheckResponse(Received(datagram), QUERY, names)
  {
    var datagram := [0, 0, 0x84, 0, 0, 0, 0, 1, 0, 0, 0, 0] + [0] + [0, 16, 0, 1, 0, 0, 0, 120] + [0, 200] + text;
    var buf := Received(datagram);
    assert |buf| == 100 && forall k :: 0 <= k < 100 ==> buf[k] == datagram[k];
    assert buf[4] == 0 && buf[5] == 0 && buf[6] == 0 && buf[7] == 1 && buf[12] == 0 && buf[21] == 0 && buf[22] == 200;
    RootSkipped(buf, HEADER_LENGTH);
    assert DataStart(buf, 12) == 23 && NextRecord(buf, 12) == 223;
    CutResponseRefused(buf, [], QUERY, names);
  }

  lemma RootSkipped(buf: seq<Byte>, o: nat)
    requires o < |buf| && buf[o] == 0
    ensures SkipName(buf, o) == Some(o + 1)
  {
  }
}
