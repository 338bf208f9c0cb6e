/** The walk over the answer section of a response (src/mdns.c), and the function that receives one. */
module MdnsAnswer {
  import opened MdnsName
  import opened MdnsDecode
  import opened Numbers

  /** "zephyr." */
  const EXPECTED: seq<Byte> := [122, 101, 112, 104, 121, 114, 46]

  // ----- The walk of the code

  /** The end of the owner name; a name that cannot be skipped leaves the offset where it was. */
  function OwnerEnd(buf: seq<Byte>, o: nat): nat {
    if SkipName(buf, o).Some? then SkipName(buf, o).value else o
  }

  /** Type, class, time to live and data length take 10 bytes. */
  function DataStart(buf: seq<Byte>, o: nat): nat {
    OwnerEnd(buf, o) + 10
  }

  /** The last of those fields. */
  function DataLength(buf: seq<Byte>, o: nat): nat
    requires DataStart(buf, o) <= |buf|
  {
    BigEndian(buf, DataStart(buf, o) - 2)
  }

  function NextRecord(buf: seq<Byte>, o: nat): nat
    requires DataStart(buf, o) <= |buf|
  {
    DataStart(buf, o) + DataLength(buf, o)
  }

  /** The offset at the start of iteration i, counted from a first record at o, if the walk gets there. */
  function RecordStart(buf: seq<Byte>, o: nat, i: nat): Option<nat>
    decreases i
  {
    if i == 0 then Some(o)
    else if DataStart(buf, o) > |buf| then None
    else RecordStart(buf, NextRecord(buf, o), i - 1)
  }

  /** The contents of the name buffer after a name has been extracted into it. */
  function Extracted(buf: seq<Byte>, o: nat, names: seq<Byte>): seq<Byte> {
    Overlay(names, Dotted(WalkName(buf, o).labels))
  }

  /** The two memcmp calls: they look at the name buffer whatever has just been written to it. */
  predicate Matches(names: seq<Byte>, query: seq<Byte>) {
    EXPECTED + query <= names
  }

  function Check(buf: seq<Byte>, o: nat, records: nat, query: seq<Byte>, names: seq<Byte>): bool
    decreases records
  {
    if records == 0 || DataStart(buf, o) > |buf| then false
    else
      var start, length := DataStart(buf, o), DataLength(buf, o);
      if length <= |buf| - start then
        var names' := Extracted(buf, start, names);
        Matches(names', query) || Check(buf, NextRecord(buf, o), records - 1, query, names')
      else
        Check(buf, NextRecord(buf, o), records - 1, query, names)
  }

  /** Record data of fewer than two bytes makes mdns_record_parse_ptr return a null string, which the
      caller then compares: sections where the walk meets such a record are outside the contract of the
      C code. */
  predicate Comparable(buf: seq<Byte>, o: nat, records: nat, query: seq<Byte>, names: seq<Byte>)
    decreases records
  {
    if records == 0 || DataStart(buf, o) > |buf| then true
    else
      var start, length := DataStart(buf, o), DataLength(buf, o);
      if length <= |buf| - start then
        var names' := Extracted(buf, start, names);
        && length >= 2
        && (Matches(names', query) || Comparable(buf, NextRecord(buf, o), records - 1, query, names'))
      else
        Comparable(buf, NextRecord(buf, o), records - 1, query, names)
  }

  /** mdns_record_parse_ptr where it yields a string */
  method RecordParsePtr(buf: seq<Byte>, offset: nat, length: nat, str: array<Byte>)
    requires offset + length <= |buf| && length >= 2
    modifies str
    ensures str[..] == Extracted(buf, offset, old(str[..]))
  {
    var n, end := StringExtract(buf, offset, str);
  }

  /** mdns_answer_check; `names` is the local name buffer, whose first contents are arbitrary. */
  method AnswerCheck(buf: seq<Byte>, start: nat, records: nat, query: seq<Byte>, names: array<Byte>)
    returns (found: bool)
    requires |EXPECTED| + |query| <= names.Length
    requires Comparable(buf, start, records, query, names[..])
    modifies names
    ensures found == Check(buf, start, records, query, old(names[..]))
  {
    hide SkipName, WalkName, Extracted;
    var offset: nat, i: nat := start, 0;
    while i < records
      invariant i <= records
      invariant Comparable(buf, offset, records - i, query, names[..])
      invariant Check(buf, start, records, query, old(names[..])) == Check(buf, offset, records - i, query, names[..])
    {
      var ok, end := StringSkip(buf, offset);
      assert end == OwnerEnd(buf, offset);
      if end + 10 > |buf| {
        return false;
      }
      var length := BigEndian(buf, end + 8);
      offset := end + 10;
      if length <= |buf| - offset {
        RecordParsePtr(buf, offset, length, names);
        MatchesCompared(names[..], query);
        if EXPECTED == names[..|EXPECTED|] && query == names[|EXPECTED|..|EXPECTED| + |query|] {
          return true;
        }
      }
      offset := offset + length;
      i := i + 1;
    }
    return false;
  }

  lemma MatchesCompared(names: seq<Byte>, query: seq<Byte>)
    requires |EXPECTED| + |query| <= |names|
    ensures Matches(names, query)
            <==> EXPECTED == names[..|EXPECTED|] && query == names[|EXPECTED|..|EXPECTED| + |query|]
  {
    var n := |EXPECTED| + |query|;
    assert names[..n] == names[..|EXPECTED|] + names[|EXPECTED|..n];
    assert EXPECTED + query <= names ==>
      (EXPECTED + query)[..|EXPECTED|] == names[..|EXPECTED|]
      && (EXPECTED + query)[|EXPECTED|..] == names[|EXPECTED|..n];
  }

  // ----- The caller

  /** The offset after n questions: each is a name, a type and a class. */
  function AfterQuestions(buf: seq<Byte>, o: nat, n: nat): Option<nat>
    decreases n
  {
    if n == 0 then Some(o)
    else if SkipName(buf, o).None? then None
    else AfterQuestions(buf, SkipName(buf, o).value + 4, n - 1)
  }

  const HEADER_LENGTH := 12

  function QuestionCount(buf: seq<Byte>): nat
    requires |buf| >= HEADER_LENGTH
  {
    BigEndian(buf, 4)
  }

  function AnswerCount(buf: seq<Byte>): nat
    requires |buf| >= HEADER_LENGTH
  {
    BigEndian(buf, 6)
  }

  /** Whether the response is taken for an answer to the query. */
  function CheckResponse(buf: seq<Byte>, query: seq<Byte>, names: seq<Byte>): bool
    requires |buf| >= HEADER_LENGTH
  {
    match AfterQuestions(buf, HEADER_LENGTH, QuestionCount(buf))
    case None => false
    case Some(o) => Check(buf, o, AnswerCount(buf), query, names)
  }

  predicate ComparableResponse(buf: seq<Byte>, query: seq<Byte>, names: seq<Byte>)
    requires |buf| >= HEADER_LENGTH
  {
    match AfterQuestions(buf, HEADER_LENGTH, QuestionCount(buf))
    case None => true
    case Some(o) => Comparable(buf, o, AnswerCount(buf), query, names)
  }

  const RESPONSE_SIZE := 100

  /** What of a datagram the receive buffer holds. */
  function Received(datagram: seq<Byte>): (buf: seq<Byte>)
    ensures |buf| == Min(|datagram|, 100) && buf <= datagram
  {
    datagram[..Min(|datagram|, RESPONSE_SIZE)]
  }

  /** mdns_query_recv_internal once a datagram with a whole header has arrived */
  method QueryRecv(datagram: seq<Byte>, query: seq<Byte>, names: array<Byte>) returns (found: bool)
    requires |datagram| >= HEADER_LENGTH && |EXPECTED| + |query| <= names.Length
    requires ComparableResponse(Received(datagram), query, names[..])
    modifies names
    ensures found == CheckResponse(Received(datagram), query, old(names[..]))
  {
    hide SkipName, Check, Comparable;
    var buf := Received(datagram);
    var questions, answers := QuestionCount(buf), AnswerCount(buf);
    var offset: nat, i: nat := HEADER_LENGTH, 0;
    while i < questions
      invariant i <= questions && names[..] == old(names[..])
      invariant AfterQuestions(buf, HEADER_LENGTH, questions) == AfterQuestions(buf, offset, questions - i)
    {
      var ok, end := StringSkip(buf, offset);
      if !ok {
        return false;
      }
      offset := end + 4;
      i := i + 1;
    }
    assert AfterQuestions(buf, offset, 0) == Some(offset);
    found := AnswerCheck(buf, offset, answers, query, names);
  }
}
