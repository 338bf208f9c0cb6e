/** The name encoder of src/mdns.c, and the round trip through the decoder. */
module MdnsEncode {
  import opened MdnsName

  /** mdns_string_find for a dot: its first position, or the length of the string. */
  function FirstDot(s: seq<Byte>): (i: nat)
    ensures i <= |s| && DOT !in s[..i]
    ensures i < |s| ==> s[i] == DOT
  {
    if s == [] || s[0] == DOT then 0 else 1 + FirstDot(s[1..])
  }

  /** The string after its first label and the dot that ends it. */
  function AfterDot(s: seq<Byte>): (rest: seq<Byte>)
    ensures s != [] ==> |rest| < |s|
  {
    var i := FirstDot(s);
    if i < |s| then s[i + 1..] else []
  }

  /** The labels between the dots; nothing follows a final dot. */
  function Split(s: seq<Byte>): seq<Label>
    decreases |s|
  {
    if s == [] then [] else [s[..FirstDot(s)]] + Split(AfterDot(s))
  }

  /** Labels in wire form. The length byte is an unsigned char. */
  function Encode(labels: seq<Label>): (wire: seq<Byte>)
    ensures |wire| > 0
  {
    if labels == [] then [0] else [|labels[0]| % 0x100] + labels[0] + Encode(labels[1..])
  }

  /** A name as the callers write it: labels joined by dots. */
  function Join(labels: seq<Label>): seq<Byte> {
    if labels == [] then []
    else if |labels| == 1 then labels[0]
    else labels[0] + [DOT] + Join(labels[1..])
  }

  function StripDot(name: seq<Byte>): seq<Byte> {
    if name != [] && name[|name| - 1] == DOT then name[..|name| - 1] else name
  }

  /** `text` written over the bytes of `before` from `start` on. */
  function Written(before: seq<Byte>, start: nat, text: seq<Byte>): (r: seq<Byte>)
    requires start + |text| <= |before|
    ensures |r| == |before| && r[..start] == before[..start]
  {
    before[..start] + text + before[start + |text|..]
  }

  /** A length byte and a label, written after what has been `done`. */
  method WriteLabel(
    buffer: array<Byte>, data: nat, piece: seq<Byte>, ghost before: seq<Byte>, ghost start: nat, ghost done: seq<Byte>)
    requires |before| == buffer.Length && data == start + |done| && data + 1 + |piece| <= buffer.Length
    requires buffer[..] == Written(before, start, done)
    modifies buffer
    ensures buffer[..] == Written(before, start, done + ([|piece| % 0x100] + piece))
  {
    buffer[data] := |piece| % 0x100;
    forall i | 0 <= i < |piece| { buffer[data + 1 + i] := piece[i]; }
  }

  lemma SplitStep(text: seq<Byte>, done: seq<Byte>)
    requires text != []
    ensures
      var piece := text[..FirstDot(text)];
      done + Encode(Split(text)) == done + ([|piece| % 0x100] + piece) + Encode(Split(AfterDot(text)))
    ensures |Encode(Split(text))| >= FirstDot(text) + 2
  {
    hide FirstDot, AfterDot;
    var piece := text[..FirstDot(text)];
    var rest := Encode(Split(AfterDot(text)));
    assert |rest| > 0;
    assert Encode(Split(text)) == ([|piece| % 0x100] + piece) + rest by {
      assert Split(text)[1..] == Split(AfterDot(text));
    }
  }

  /** mdns_string_make without a string table, as its only caller uses it; `capacity` is the length
      of the buffer. It succeeds exactly when the encoded labels fit. */
  method StringMake(buffer: array<Byte>, start: nat, name: seq<Byte>) returns (end: Option<nat>)
    requires name != [] && start <= buffer.Length
    modifies buffer
    ensures
      var wire := Encode(Split(StripDot(name)));
      && (end.Some? <==> start + |wire| <= buffer.Length)
      && (end.Some? ==> end.value == start + |wire| && buffer[..] == Written(old(buffer[..]), start, wire))
    ensures buffer[..start] == old(buffer[..start])
  {
    hide FirstDot, AfterDot, Split, Encode, Written;
    var length := |name|;
    if name[length - 1] == DOT {
      length := length - 1;
    }
    ghost var wire := Encode(Split(StripDot(name)));
    ghost var before := buffer[..];
    ghost var done: seq<Byte> := [];
    NothingWritten(before, start);
    var data, lastPos := start, 0;
    var remain := buffer.Length - data;
    assert name[0..length] == StripDot(name);
    assert [] + wire == wire;
    while lastPos < length
      invariant lastPos <= length && data == start + |done| <= buffer.Length && remain == buffer.Length - data
      invariant wire == done + Encode(Split(name[lastPos..length]))
      invariant buffer[..] == Written(before, start, done)
    {
      var rest := name[lastPos..length];
      var subLength := FirstDot(rest);
      SplitStep(rest, done);
      if remain <= subLength + 1 {
        PrefixKept(buffer[..], before, start, done);
        return None;
      }
      WriteLabel(buffer, data, rest[..subLength], before, start, done);
      done := done + ([subLength % 0x100] + rest[..subLength]);
      lastPos := NextPos(name, lastPos, length);
      data := data + subLength + 1;
      remain := buffer.Length - data;
    }
    assert name[lastPos..length] == [];
    EncodeRoot();
    if remain == 0 {
      PrefixKept(buffer[..], before, start, done);
      return None;
    }
    RootWritten(buffer[..], before, start, done);
    buffer[data] := 0;
    PrefixKept(buffer[..], before, start, wire);
    return Some(data + 1);
  }

  /** Where the next label starts, given that the current one starts at `lastPos`. */
  function NextPos(name: seq<Byte>, lastPos: nat, length: nat): (next: nat)
    requires lastPos < length <= |name|
    ensures lastPos < next <= length
    ensures name[next..length] == AfterDot(name[lastPos..length])
  {
    var pos := FirstDot(name[lastPos..length]);
    if pos < length - lastPos then lastPos + pos + 1 else length
  }

  lemma NothingWritten(before: seq<Byte>, start: nat)
    requires start <= |before|
    ensures before == Written(before, start, [])
  {
  }

  lemma RootWritten(now: seq<Byte>, before: seq<Byte>, start: nat, done: seq<Byte>)
    requires start + |done| < |before| && now == Written(before, start, done)
    ensures now[start + |done| := 0] == Written(before, start, done + [0])
  {
  }

  lemma PrefixKept(now: seq<Byte>, before: seq<Byte>, start: nat, text: seq<Byte>)
    requires start + |text| <= |before| && now == Written(before, start, text)
    ensures now[..start] == before[..start]
  {
  }

  lemma EncodeRoot()
    ensures Encode(Split([])) == [0]
  {
  }
}
