/** OP_REPLY and OP_QUERY bodies (mongowire/src/messages/op_reply.rs,
    mongowire/src/messages/op_query.rs). */
module LegacyCodec {
  import opened Bytes
  import opened Text
  import opened Io
  import opened ScalarCodec
  import opened BsonModel
  import opened Decode
  import opened RawValue
  import opened OpMsgCodec
  import opened OpMsgTheorems

  /** Flag words keep their known bits: 0-3 of a reply, 1-7 of a query. */
  datatype OpReply = OpReply(
    responseFlags: int, cursorId: i64, startingFrom: i32, numberReturned: i32, documents: seq<bytes>)

  datatype OpQuery = OpQuery(
    flags: int, fullCollectionName: Str, numberToSkip: i32, numberToReturn: i32,
    query: bytes, selector: Option<bytes>)

  function ReplyFlags(raw: i32): int {
    raw % 16
  }

  function QueryFlags(raw: i32): int {
    raw % 256 - raw % 2
  }

  function AsProtocol<T>(r: Result<T, ReadError>): Result<T, ProtocolError> {
    if r.Ok? then Ok(r.value) else Err(ReadFailure(r.error))
  }

  type Taken<+T> = Result<(T, bytes), ProtocolError>

  /** One length-prefixed document off the cursor. */
  function TakeOne(r: bytes): (t: Taken<bytes>)
    ensures t.Ok? ==> ValidDocument(t.value.0) && |t.value.0| <= I32_MAX && r == t.value.0 + t.value.1
  {
    if |r| < 4 then Err(InvalidBody("truncated document"))
    else
      var len := I32(r);
      if len < MIN_DOC_LEN || len > |r| then Err(InvalidBody("invalid document length"))
      else
        match FromBytes(r[..len])
        case Err(e) => Err(BsonFailure(e))
        case Ok(doc) => Ok((doc, r[len..]))
  }

  /** Exactly `n` documents off the cursor. */
  function TakeMany(r: bytes, n: nat): Taken<seq<bytes>>
    decreases n
  {
    if n == 0 then Ok(([], r))
    else
      var (doc, r1) :- TakeOne(r);
      var (docs, r2) :- TakeMany(r1, n - 1);
      Ok(([doc] + docs, r2))
  }

  function ParseReply(body: bytes): Result<OpReply, ProtocolError> {
    var (flags, r1) :- AsProtocol(ReadI32(body));
    var (cursorId, r2) :- AsProtocol(ReadI64(r1));
    var (startingFrom, r3) :- AsProtocol(ReadI32(r2));
    var (number, r4) :- AsProtocol(ReadI32(r3));
    if number < 0 then Err(InvalidBody("negative numberReturned"))
    else if number > |r4| / MIN_DOC_LEN then Err(InvalidBody("numberReturned exceeds the body size"))
    else
      var (docs, r5) :- TakeMany(r4, number);
      if r5 != [] then Err(InvalidBody("trailing bytes after the documents"))
      else Ok(OpReply(ReplyFlags(flags), cursorId, startingFrom, number, docs))
  }

  function ReplyBytes(m: OpReply): bytes {
    LE32(m.responseFlags) + (LE64(m.cursorId) + (LE32(m.startingFrom) + (LE32(|m.documents|) + Concat(m.documents))))
  }

  function ParseQuery(body: bytes): Result<OpQuery, ProtocolError> {
    var (flags, r1) :- AsProtocol(ReadI32(body));
    var (name, r2) :- AsProtocol(ReadCString(r1));
    if name == [] then Err(InvalidBody("empty fullCollectionName"))
    else if !ValidUtf8(name) then Err(InvalidBody("invalid UTF-8 in fullCollectionName"))
    else
      var (skip, r3) :- AsProtocol(ReadI32(r2));
      var (limit, r4) :- AsProtocol(ReadI32(r3));
      var (query, r5) :- TakeOne(r4);
      if r5 == [] then Ok(OpQuery(QueryFlags(flags), name, skip, limit, query, None))
      else
        var (selector, r6) :- TakeOne(r5);
        if r6 != [] then Err(InvalidBody("trailing bytes after returnFieldsSelector"))
        else Ok(OpQuery(QueryFlags(flags), name, skip, limit, query, Some(selector)))
  }

  function SelectorBytes(m: OpQuery): bytes {
    if m.selector.Some? then m.selector.value else []
  }

  function QueryBytes(m: OpQuery): bytes {
    LE32(m.flags) + (m.fullCollectionName + [0]
      + (LE32(m.numberToSkip) + (LE32(m.numberToReturn) + (m.query + SelectorBytes(m)))))
  }

  // ------------------------------------------------------------ documents

  lemma TakeOneOf(doc: bytes, rest: bytes)
    requires ValidDocument(doc) && |doc| <= I32_MAX
    ensures TakeOne(doc + rest) == Ok((doc, rest))
  {
    hide U32;
    ValidPrefix(doc, rest);
    assert (doc + rest)[..|doc|] == doc && (doc + rest)[|doc|..] == rest;
  }

  predicate SmallDocuments(docs: seq<bytes>) {
    forall i :: 0 <= i < |docs| ==> ValidDocument(docs[i]) && |docs[i]| <= I32_MAX
  }

  lemma {:induction false} TakeManyOf(docs: seq<bytes>, rest: bytes)
    requires SmallDocuments(docs)
    ensures TakeMany(Concat(docs) + rest, |docs|) == Ok((docs, rest))
    ensures |Concat(docs)| >= 5 * |docs|
  {
    hide TakeOne, ValidDocument;
    if docs == [] {
      assert Concat(docs) + rest == rest;
    } else {
      assert Concat(docs) + rest == docs[0] + (Concat(docs[1..]) + rest);
      TakeOneOf(docs[0], Concat(docs[1..]) + rest);
      TakeManyOf(docs[1..], rest);
      ValidIsNotEmpty(docs[0]);
      assert [docs[0]] + docs[1..] == docs;
    }
  }

  lemma {:induction false} TakeManyExact(r: bytes, n: nat)
    requires TakeMany(r, n).Ok?
    ensures var (docs, r') := TakeMany(r, n).value;
            |docs| == n && SmallDocuments(docs) && r == Concat(docs) + r'
    decreases n
  {
    hide TakeOne, ValidDocument;
    if n > 0 {
      var (doc, r1) := TakeOne(r).value;
      TakeManyExact(r1, n - 1);
      var (docs, r') := TakeMany(r, n).value;
      assert docs[1..] == TakeMany(r1, n - 1).value.0;
    }
  }

  // ------------------------------------------------------------ OP_REPLY

  /** The fixed part, then exactly `numberReturned` complete documents. */
  ghost predicate IsReply(body: bytes, docs: seq<bytes>) {
    && |body| >= 20 && I32(body[16..]) == |docs| && SmallDocuments(docs) && body[20..] == Concat(docs)
  }

  lemma ReplyFixedPart(body: bytes)
    requires |body| >= 20
    ensures ReadI32(body) == Ok((I32(body), body[4..]))
    ensures ReadI64(body[4..]) == Ok((I64(body[4..12]), body[12..]))
    ensures ReadI32(body[12..]) == Ok((I32(body[12..16]), body[16..]))
    ensures ReadI32(body[16..]) == Ok((I32(body[16..]), body[20..]))
  {
    hide U32, I64;
    FirstFour(body);
    FirstFour(body[16..]);
    assert body[4..][8..] == body[12..] && body[4..][..8] == body[4..12];
    assert body[12..][4..] == body[16..] && body[12..][..4] == body[12..16];
    assert body[16..][4..] == body[20..];
  }

  lemma FirstFour(b: bytes)
    requires |b| >= 4
    ensures I32(b[..4]) == I32(b)
  {
  }

  lemma ReplyAccepted(body: bytes)
    requires ParseReply(body).Ok?
    ensures IsReply(body, ParseReply(body).value.documents)
  {
    hide U32, I32, I64, ReadI32, ReadI64, TakeMany, SmallDocuments;
    if |body| < 20 {
      ShortReply(body);
    } else {
      ReplyFixedPart(body);
      TakeManyExact(body[20..], I32(body[16..]));
      var docs := ParseReply(body).value.documents;
      assert Concat(docs) + [] == Concat(docs);
    }
  }

  lemma ReplyAccepts(body: bytes, docs: seq<bytes>)
    requires IsReply(body, docs)
    ensures ParseReply(body).Ok?
  {
    hide U32, I32, I64, ReadI32, ReadI64, TakeMany, SmallDocuments, Concat;
    ReplyFixedPart(body);
    TakeManyOf(docs, []);
    assert Concat(docs) + [] == Concat(docs);
  }

  /** OP_REPLY accepts exactly the bodies made of the fixed part and
      `numberReturned` complete documents filling the rest; the early count
      guard rejects none of them. */
  lemma ReplyAcceptsExactly(body: bytes)
    ensures ParseReply(body).Ok? <==> exists docs :: IsReply(body, docs)
    ensures ParseReply(body).Ok? ==> IsReply(body, ParseReply(body).value.documents)
  {
    hide ParseReply, IsReply;
    if ParseReply(body).Ok? {
      ReplyAccepted(body);
    }
    forall docs | IsReply(body, docs)
      ensures ParseReply(body).Ok?
    {
      ReplyAccepts(body, docs);
    }
  }

  lemma ShortReply(body: bytes)
    requires |body| < 20
    ensures ParseReply(body).Err?
  {
    hide U32, I32, I64, TakeMany;
  }

  /** Documents delimit themselves: of two lists of equal length where one's
      bytes begin with the other's, both are the same list. */
  lemma {:induction false} SelfDelimiting(docs: seq<bytes>, docs': seq<bytes>, rest: bytes)
    requires SmallDocuments(docs) && SmallDocuments(docs') && |docs| == |docs'|
    requires Concat(docs) == Concat(docs') + rest
    ensures docs == docs' && rest == []
  {
    hide TakeMany, SmallDocuments;
    TakeManyOf(docs, []);
    TakeManyOf(docs', rest);
    assert Concat(docs) + [] == Concat(docs);
  }

  /** Every proper prefix of an accepted OP_REPLY body is rejected. */
  lemma ReplyPrefixesRejected(body: bytes, k: nat)
    requires ParseReply(body).Ok? && k < |body|
    ensures ParseReply(body[..k]).Err?
  {
    hide U32, ParseReply, SmallDocuments, Concat;
    ReplyAcceptsExactly(body);
    ReplyAcceptsExactly(body[..k]);
    if ParseReply(body[..k]).Ok? {
      var docs := ParseReply(body).value.documents;
      var docs' := ParseReply(body[..k]).value.documents;
      FirstFour(body[16..]);
      FirstFour(body[..k][16..]);
      assert body[..k][16..][..4] == body[16..][..4];
      assert body[20..] == body[..k][20..] + body[k..];
      SelfDelimiting(docs, docs', body[k..]);
    }
  }

  predicate WellFormedReply(m: OpReply) {
    0 <= m.responseFlags < 16 && m.numberReturned == |m.documents| && SmallDocuments(m.documents)
  }

  lemma ParseReplyOf(m: OpReply)
    requires WellFormedReply(m)
    ensures ParseReply(ReplyBytes(m)) == Ok(m)
  {
    hide LE32, LE64, ReadI32, ReadI64, TakeMany, Concat, SmallDocuments;
    var docs := Concat(m.documents);
    var t3 := LE32(|m.documents|) + docs;
    var t2 := LE32(m.startingFrom) + t3;
    var t1 := LE64(m.cursorId) + t2;
    ReadI32Of(m.responseFlags, t1);
    ReadI64Of(m.cursorId, t2);
    ReadI32Of(m.startingFrom, t3);
    ReadI32Of(m.numberReturned, docs);
    TakeManyOf(m.documents, []);
    assert docs + [] == docs;
  }

  /** Re-encoding an accepted reply keeps every byte but unknown flag bits. */
  lemma ReencodeReply(body: bytes)
    requires ParseReply(body).Ok?
    ensures var m := ParseReply(body).value;
            WellFormedReply(m) && ReplyBytes(m) == LE32(m.responseFlags) + body[4..]
  {
    hide LE32, LE64, U32, I32, I64, ReadI32, ReadI64, TakeMany, Concat, SmallDocuments;
    var m := ParseReply(body).value;
    ReplyAcceptsExactly(body);
    ReplyFixedPart(body);
    ReadI64Exact(body[4..]);
    ReadI32Exact(body[12..]);
    ReadI32Exact(body[16..]);
  }

  // ------------------------------------------------------------ OP_QUERY

  predicate WellFormedQuery(m: OpQuery) {
    && 0 <= m.flags < 256 && m.flags % 2 == 0
    && m.fullCollectionName != [] && NulFree(m.fullCollectionName)
    && ValidDocument(m.query) && |m.query| <= I32_MAX
    && (m.selector.Some? ==> ValidDocument(m.selector.value) && |m.selector.value| <= I32_MAX)
  }

  lemma ParseQueryOf(m: OpQuery)
    requires WellFormedQuery(m)
    ensures ParseQuery(QueryBytes(m)) == Ok(m)
  {
    hide LE32, ReadI32, ReadCString, TakeOne, ValidUtf8, NulFree, ValidDocument;
    var t4 := m.query + SelectorBytes(m);
    var t3 := LE32(m.numberToReturn) + t4;
    var t2 := LE32(m.numberToSkip) + t3;
    var t1 := m.fullCollectionName + [0] + t2;
    ReadI32Of(m.flags, t1);
    ReadCStringOf(m.fullCollectionName, t2);
    ReadI32Of(m.numberToSkip, t3);
    ReadI32Of(m.numberToReturn, t4);
    TakeOneOf(m.query, SelectorBytes(m));
    if m.selector.Some? {
      ValidIsNotEmpty(m.selector.value);
      TakeOneOf(m.selector.value, []);
      assert m.selector.value + [] == m.selector.value;
    }
  }

  lemma ReencodeQuery(body: bytes)
    requires ParseQuery(body).Ok?
    ensures var m := ParseQuery(body).value;
            WellFormedQuery(m) && QueryBytes(m) == LE32(m.flags) + body[4..]
  {
    hide LE32, ReadI32, ReadCString, TakeOne, ValidUtf8, ValidDocument, NulFree;
    var m := ParseQuery(body).value;
    var (name, r2) := ReadCString(ReadI32(body).value.1).value;
    ReadCStringExact(ReadI32(body).value.1);
    ReadI32Rest(body);
    ReadI32Exact(r2);
    var r3 := ReadI32(r2).value.1;
    ReadI32Exact(r3);
    var r4 := ReadI32(r3).value.1;
    TakeOneExact(r4);
    var r5 := TakeOne(r4).value.1;
    if r5 != [] {
      TakeOneExact(r5);
      assert m.selector.value + [] == m.selector.value;
    }
    assert r5 == SelectorBytes(m);
  }

  lemma ReadI32Rest(r: bytes)
    requires ReadI32(r).Ok?
    ensures |r| >= 4 && ReadI32(r).value.1 == r[4..]
  {
  }

  lemma TakeOneExact(r: bytes)
    requires TakeOne(r).Ok?
    ensures var (doc, rest) := TakeOne(r).value;
            r == doc + rest && ValidDocument(doc) && |doc| <= I32_MAX
  {
  }
}
