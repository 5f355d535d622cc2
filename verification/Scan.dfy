/** The scanner against the bytes: which items it yields, and when it ends at
    the terminator or runs off the body (wirebson/src/decode.rs). */
module Scan {
  import opened Bytes
  import opened Text
  import opened ScalarCodec
  import opened BsonModel
  import opened Decode
  import opened RawValue
  import opened Documents

  // ------------------------------------------------------------ what a scan step took

  function ItemBytes(name: bytes, raw: RawBson): bytes {
    [RawTag(raw)] + name + [0] + RawBytes(raw)
  }

  lemma ScanExact(doc: bytes, offset: nat)
    requires ScanNext(doc, offset).Ok?
    ensures offset < |Body(doc)|
    ensures var step := ScanNext(doc, offset).value;
            match step
            case End => Body(doc)[offset..] == [0]
            case Item(name, raw, next) =>
              && NulFree(name) && ValidRaw(raw)
              && next == offset + |ItemBytes(name, raw)|
              && Body(doc)[offset..] == ItemBytes(name, raw) + Body(doc)[next..]
  {
    hide ParseValue, ValidRaw, RawBytes, RawTag, ValidUtf8;
    var body := Body(doc);
    var step := ScanNext(doc, offset).value;
    if step.Item? {
      var named := body[offset + 1..];
      var voff := offset + 1 + |step.name| + 1;
      ParseValueExact(body[offset], body[voff..], 4 + voff);
      var rest := ParseValue(body[offset], body[voff..], 4 + voff).value.1;
      SplitItem(body, offset, step.name, RawBytes(step.value), rest);
    }
  }

  lemma SplitItem(body: bytes, offset: nat, name: bytes, value: bytes, rest: bytes)
    requires offset + 1 + |name| < |body|
    requires body[offset + 1..][..|name|] == name && body[offset + 1..][|name|] == 0
    requires body[offset + 1 + |name| + 1..] == value + rest
    ensures body[|body| - |rest|..] == rest
    ensures body[offset..] == [body[offset]] + name + [0] + value + rest
  {
    var named := body[offset + 1..];
    assert named == name + [0] + (value + rest);
    assert body[offset..] == [body[offset]] + named;
  }

  // ------------------------------------------------------------ reading an item back

  lemma RawTagIsNotNul(raw: RawBson)
    ensures RawTag(raw) != 0
  {
  }

  /** Where the parts of an item are. */
  lemma ItemParts(body: bytes, offset: nat, tag: byte, name: bytes, value: bytes, rest: bytes)
    requires offset <= |body| && body[offset..] == ([tag] + name + [0] + value) + rest
    ensures offset + |name| + 2 <= |body| && body[offset] == tag
    ensures body[offset + 1..] == name + [0] + (value + rest)
    ensures body[offset + 1..][..|name|] == name
    ensures body[offset + 1 + |name| + 1..] == value + rest
  {
    var tail := name + [0] + (value + rest);
    assert ([tag] + name + [0] + value) + rest == [tag] + tail;
    assert body[offset] == body[offset..][0];
    assert body[offset + 1..] == body[offset..][1..] == tail;
    assert body[offset + 1 + |name| + 1..] == body[offset + 1..][|name| + 1..];
  }

  /** The scanner reads a written item back at any offset, whatever follows. */
  lemma ScanOfItem(doc: bytes, offset: nat, name: Str, raw: RawBson, rest: bytes)
    requires offset <= |Body(doc)| && Body(doc)[offset..] == ItemBytes(name, raw) + rest
    requires NulFree(name) && ValidRaw(raw) && |doc| <= U32_MAX
    ensures ScanNext(doc, offset) == Ok(Item(name, raw, offset + |ItemBytes(name, raw)|))
  {
    hide ParseValue, ValidRaw, RawBytes, RawTag, ValidUtf8, NulFree;
    RawTagIsNotNul(raw);
    ItemParts(Body(doc), offset, RawTag(raw), name, RawBytes(raw), rest);
    FindNulAfter(name, RawBytes(raw) + rest);
    ParseValueOf(raw, rest, 4 + offset + |name| + 2);
  }

  lemma ScanOfEnd(doc: bytes, offset: nat)
    requires offset <= |Body(doc)| && Body(doc)[offset..] == [0]
    ensures ScanNext(doc, offset) == Ok(End)
  {
    hide ParseValue, FindNul, ValidUtf8;
    assert Body(doc)[offset] == Body(doc)[offset..][0];
  }

  // ------------------------------------------------------------ whole scans

  type RawField = (Str, RawBson)

  function RawFieldsBytes(items: seq<RawField>): bytes {
    if items == [] then [] else ItemBytes(items[0].0, items[0].1) + RawFieldsBytes(items[1..])
  }

  predicate Clean(items: seq<RawField>) {
    forall i :: 0 <= i < |items| ==> NulFree(items[i].0) && ValidRaw(items[i].1)
  }

  /** Scanning on from `offset` yields items up to the very end of the body,
      where no byte is left to read a tag from. */
  predicate RunsOff(doc: bytes, offset: nat)
    decreases |Body(doc)| - offset
  {
    || offset == |Body(doc)|
    || (&& ScanNext(doc, offset).Ok? && ScanNext(doc, offset).value.Item?
        && RunsOff(doc, ScanNext(doc, offset).value.next))
  }

  /** Scanning on from `offset` yields items and then the terminator. */
  predicate Ends(doc: bytes, offset: nat)
    decreases |Body(doc)| - offset
  {
    && ScanNext(doc, offset).Ok?
    && (ScanNext(doc, offset).value.End? || Ends(doc, ScanNext(doc, offset).value.next))
  }

  /** The items from `offset` on, when the scan gets through. */
  lemma {:induction false} ItemsFrom(doc: bytes, offset: nat) returns (items: seq<RawField>)
    requires offset <= |Body(doc)| && (RunsOff(doc, offset) || Ends(doc, offset))
    ensures Clean(items)
    ensures Body(doc)[offset..] == RawFieldsBytes(items) + (if RunsOff(doc, offset) then [] else [0])
    decreases |Body(doc)| - offset
  {
    hide ScanNext, ItemBytes, ValidRaw, NulFree;
    if offset == |Body(doc)| {
      items := [];
    } else {
      ScanExact(doc, offset);
      var step := ScanNext(doc, offset).value;
      if step.End? {
        items := [];
      } else {
        var rest := ItemsFrom(doc, step.next);
        items := [(step.name, step.value)] + rest;
        assert items[1..] == rest;
      }
    }
  }

  lemma {:induction false} ItemsRunOff(doc: bytes, offset: nat, items: seq<RawField>)
    requires offset <= |Body(doc)| && |doc| <= U32_MAX && Clean(items)
    requires Body(doc)[offset..] == RawFieldsBytes(items)
    ensures RunsOff(doc, offset)
    decreases |items|
  {
    hide ScanNext, ItemBytes, ValidRaw, NulFree;
    if items != [] {
      var size := ItemStep(doc, offset, items, []);
      ItemsRunOff(doc, offset + size, items[1..]);
    }
  }

  lemma {:induction false} ItemsEnd(doc: bytes, offset: nat, items: seq<RawField>)
    requires offset <= |Body(doc)| && |doc| <= U32_MAX && Clean(items)
    requires Body(doc)[offset..] == RawFieldsBytes(items) + [0]
    ensures Ends(doc, offset)
    decreases |items|
  {
    hide ScanNext, ItemBytes, ValidRaw, NulFree;
    if items == [] {
      ScanOfEnd(doc, offset);
    } else {
      var size := ItemStep(doc, offset, items, [0]);
      ItemsEnd(doc, offset + size, items[1..]);
    }
  }

  lemma ItemSize(name: bytes, raw: RawBson)
    ensures |ItemBytes(name, raw)| >= 2
  {
  }

  lemma Behind(body: bytes, offset: nat, head: bytes, rest: bytes)
    requires offset <= |body| && body[offset..] == head + rest
    ensures offset + |head| <= |body| && body[offset + |head|..] == rest
  {
    assert body[offset + |head|..] == body[offset..][|head|..];
  }

  /** One item off the front. */
  lemma ItemStep(doc: bytes, offset: nat, items: seq<RawField>, tail: bytes) returns (size: nat)
    requires offset <= |Body(doc)| && |doc| <= U32_MAX && items != [] && Clean(items)
    requires Body(doc)[offset..] == RawFieldsBytes(items) + tail
    ensures size >= 1 && offset + size <= |Body(doc)|
    ensures ScanNext(doc, offset) == Ok(Item(items[0].0, items[0].1, offset + size))
    ensures Body(doc)[offset + size..] == RawFieldsBytes(items[1..]) + tail && Clean(items[1..])
  {
    hide ScanNext, ValidRaw, NulFree, ItemBytes, Body;
    var (name, raw) := items[0];
    size := |ItemBytes(name, raw)|;
    ItemSize(name, raw);
    var rest := RawFieldsBytes(items[1..]) + tail;
    assert Body(doc)[offset..] == ItemBytes(name, raw) + rest;
    ScanOfItem(doc, offset, name, raw, rest);
    Behind(Body(doc), offset, ItemBytes(name, raw), rest);
  }

  /** When a validated document reaches the scanner's first branch, for all of
      them: its body is clean items to the last byte, so that the final NUL its
      validation saw belongs to the last item. */
  lemma RunsOffIff(doc: bytes)
    requires ValidDocument(doc)
    ensures RunsOff(doc, 0) <==> exists items :: Clean(items) && Body(doc) == RawFieldsBytes(items)
    ensures RunsOff(doc, 0) ==> ScanNext(doc, |Body(doc)|) == Err(ShortDocument(|Body(doc)| + 1, |Body(doc)|))
  {
    hide RunsOff, Clean, RawFieldsBytes, U32;
    assert Body(doc)[0..] == Body(doc);
    if RunsOff(doc, 0) {
      var items := ItemsFrom(doc, 0);
      assert RawFieldsBytes(items) + [] == RawFieldsBytes(items);
      PastTheEnd(doc);
    }
    if items :| Clean(items) && Body(doc) == RawFieldsBytes(items) {
      ItemsRunOff(doc, 0, items);
    }
  }

  /** Likewise for the scans that end at a terminator. */
  lemma EndsIff(doc: bytes)
    requires ValidDocument(doc)
    ensures Ends(doc, 0) <==> exists items :: Clean(items) && Body(doc) == RawFieldsBytes(items) + [0]
  {
    hide Ends, RunsOff, Clean, RawFieldsBytes, U32;
    assert Body(doc)[0..] == Body(doc);
    if Ends(doc, 0) {
      EndsOrRunsOff(doc, 0);
      var items := ItemsFrom(doc, 0);
    }
    if items :| Clean(items) && Body(doc) == RawFieldsBytes(items) + [0] {
      ItemsEnd(doc, 0, items);
    }
  }

  lemma {:induction false} EndsOrRunsOff(doc: bytes, offset: nat)
    ensures !(Ends(doc, offset) && RunsOff(doc, offset))
    decreases |Body(doc)| - offset
  {
    hide ScanNext;
    if offset == |Body(doc)| {
      PastTheEnd(doc);
    } else if ScanNext(doc, offset).Ok? && ScanNext(doc, offset).value.Item? {
      EndsOrRunsOff(doc, ScanNext(doc, offset).value.next);
    }
  }

  lemma PastTheEnd(doc: bytes)
    ensures ScanNext(doc, |Body(doc)|) == Err(ShortDocument(|Body(doc)| + 1, |Body(doc)|))
  {
  }

  /** A document that runs off the end never decodes. */
  lemma {:induction false} RunOffFails(doc: bytes, offset: nat, mode: Mode, depth: nat)
    requires RunsOff(doc, offset)
    ensures DecodeItems(doc, offset, mode, depth).Err?
    decreases |Body(doc)| - offset
  {
    hide ScanNext, Materialize;
    if offset == |Body(doc)| {
      PastTheEnd(doc);
    } else {
      RunOffFails(doc, ScanNext(doc, offset).value.next, mode, depth);
    }
  }

  /** A family of validated documents that do: an int32 below 2^24 in last place,
      with no terminator behind it. */
  lemma ValidatedYetUnterminated(name: Str, v: i32, mode: Mode)
    requires NulFree(name) && |name| < I32_MAX && 0 <= v < 0x100_0000
    ensures var doc := LE32(|name| + 10) + ([TAG_INT32] + name + [0] + LE32(v));
            ValidDocument(doc) && RunsOff(doc, 0) && DecodeDocument(doc, mode, 1).Err?
  {
    hide ScanNext, RunsOff, U32, DecodeItems;
    var raw := RawScalar(Int32(v));
    var item := ItemBytes(name, raw);
    assert item == [TAG_INT32] + name + [0] + LE32(v);
    var doc := LE32(|name| + 10) + item;
    LE32RoundTrip(|name| + 10, item);
    assert doc[|doc| - 1] == LE32(v)[3] == 0;
    assert RawFieldsBytes([(name, raw)]) == item + RawFieldsBytes([(name, raw)][1..]) == item;
    assert Body(doc)[0..] == item;
    ItemsRunOff(doc, 0, [(name, raw)]);
    RunOffFails(doc, 0, mode, 1);
  }
}
