/** The field-stripping decoder `getText`.

    The buffer is scanned left to right.  An ordinary byte is copied to the
    output.  A START byte begins an embedded field: the cursor skips START and
    the kind byte, reads the payload length with `getInt`, then moves on by one
    length byte plus the length, and the byte it lands on must be END. */
module FieldStreamDecoder {
  import opened Framing
  import opened VarIntReader

  /** Where the scan resumes after the field whose START byte is at `at`: just
      past its END byte.  As in the source, the cursor passes exactly one
      length byte, whatever number of bytes the length's encoding used. */
  function SkipField(buf: seq<byte>, at: nat): (r: Result<nat>)
    ensures r.Ok? ==> ReadVarInt(buf, at + 2).Ok?
    ensures r.Ok? ==> r.value == at + 4 + ReadVarInt(buf, at + 2).value.value
    ensures r.Ok? ==> at + 4 <= r.value <= |buf| && buf[r.value - 1] == END
  {
    var lengthAt := at + 2;
    match ReadVarInt(buf, lengthAt)
    case Err(e) => Err(e)
    case Ok(read) =>
      var endAt := lengthAt + 1 + read.value;
      if endAt < |buf| && buf[endAt] == END then Ok(endAt + 1) else Err(MissingEnd)
  }

  /** The text of `buf` from `cursor` on: the bytes outside fields, in order,
      or the first error met. */
  function Strip(buf: seq<byte>, cursor: nat): (r: Result<seq<byte>>)
    requires cursor <= |buf|
    ensures r.Ok? ==> |r.value| <= |buf| - cursor
    ensures r.Ok? ==> START !in r.value
    decreases |buf| - cursor
  {
    if cursor == |buf| then Ok([])
    else if buf[cursor] == START then
      match SkipField(buf, cursor)
      case Err(e) => Err(e)
      case Ok(next) => Strip(buf, next)
    else
      match Strip(buf, cursor + 1)
      case Err(e) => Err(e)
      case Ok(rest) => Ok([buf[cursor]] + rest)
  }

  /** The bytes `getText` collects from the whole buffer, before UTF-8 decoding. */
  function DecodeText(buf: seq<byte>): (r: Result<seq<byte>>)
    ensures r.Ok? ==> |r.value| <= |buf| && START !in r.value
  {
    Strip(buf, 0)
  }

  /** `prefix` followed by the text of `r`, or `r`'s error. */
  function Prepend(prefix: seq<byte>, r: Result<seq<byte>>): Result<seq<byte>>
  {
    match r
    case Err(e) => Err(e)
    case Ok(s) => Ok(prefix + s)
  }

  lemma PrependTwice(p: seq<byte>, q: seq<byte>, r: Result<seq<byte>>)
    ensures Prepend(p, Prepend(q, r)) == Prepend(p + q, r)
  {
    if r.Ok? {
      assert p + (q + r.value) == (p + q) + r.value;
    }
  }

  /** `getText`, up to the UTF-8 conversion: the scanning loop with its cursor
      and output array. */
  method GetText(inputData: seq<byte>) returns (r: Result<seq<byte>>)
    ensures r == DecodeText(inputData)
  {
    var result: seq<byte> := [];
    var cursor: nat := 0;
    assert Strip(inputData, 0).Ok? ==> [] + Strip(inputData, 0).value == Strip(inputData, 0).value;
    while cursor < |inputData|
      invariant cursor <= |inputData|
      invariant DecodeText(inputData) == Prepend(result, Strip(inputData, cursor))
      decreases |inputData| - cursor
    {
      var b := inputData[cursor];
      if b == START {
        ghost var at := cursor;
        cursor := cursor + 2;
        var length := GetInt(inputData, cursor);
        if length.Err? {
          return Err(length.error);
        }
        var landing := cursor + 1 + length.value.value;
        if landing >= |inputData| || inputData[landing] != END {
          return Err(MissingEnd);
        }
        cursor := landing + 1;
        assert SkipField(inputData, at) == Ok(cursor);
        continue;
      }
      assert Strip(inputData, cursor) == Prepend([b], Strip(inputData, cursor + 1));
      PrependTwice(result, [b], Strip(inputData, cursor + 1));
      result := result + [b];
      cursor := cursor + 1;
    }
    assert result + [] == result;
    r := Ok(result);
  }

  /** Without a START byte the text is the whole rest of the buffer. */
  lemma {:induction false} NoStartKeepsRest(buf: seq<byte>, cursor: nat)
    requires cursor <= |buf|
    requires forall i :: 0 <= i < |buf| ==> buf[i] != START
    ensures Strip(buf, cursor) == Ok(buf[cursor..])
    decreases |buf| - cursor
  {
    if cursor < |buf| {
      NoStartKeepsRest(buf, cursor + 1);
      assert buf[cursor..] == [buf[cursor]] + buf[cursor + 1..];
    }
  }

  /** A buffer with no START byte decodes to itself. */
  lemma NoStartIsIdentity(buf: seq<byte>)
    requires forall i :: 0 <= i < |buf| ==> buf[i] != START
    ensures DecodeText(buf) == Ok(buf)
  {
    NoStartKeepsRest(buf, 0);
  }

  /** Decoding is idempotent: decoded text has no START byte, so it decodes to itself. */
  lemma DecodeIdempotent(buf: seq<byte>)
    requires DecodeText(buf).Ok?
    ensures DecodeText(DecodeText(buf).value) == DecodeText(buf)
  {
    NoStartIsIdentity(DecodeText(buf).value);
  }

  /** One unit of a field stream: a text byte, or a whole field as the source
      frames it — START, a kind byte, the length marker, `body` and END. */
  datatype Piece = Text(b: byte) | Field(kind: byte, marker: byte, body: seq<byte>)

  function PieceBytes(p: Piece): (s: seq<byte>)
    ensures |s| >= 1
  {
    match p
    case Text(b) => [b]
    case Field(kind, marker, body) => [START, kind, marker] + body + [END]
  }

  function Flatten(ps: seq<Piece>): seq<byte>
  {
    if ps == [] then [] else PieceBytes(ps[0]) + Flatten(ps[1..])
  }

  /** The text bytes a piece contributes. */
  function KeptOf(p: Piece): seq<byte>
  {
    match p
    case Text(b) => [b]
    case Field(_, _, _) => []
  }

  /** The text bytes of the pieces, in order. */
  function Kept(ps: seq<Piece>): seq<byte>
  {
    if ps == [] then [] else KeptOf(ps[0]) + Kept(ps[1..])
  }

  /** The piece `p` sits at `at` of `buf`: a text byte that is not START, or a
      field whose body is as long as the integer read at its marker. */
  predicate PieceAt(buf: seq<byte>, at: nat, p: Piece)
  {
    var size := |PieceBytes(p)|;
    at + size <= |buf| && buf[at..at + size] == PieceBytes(p) &&
    match p
    case Text(b) => b != START
    case Field(_, _, body) =>
      ReadVarInt(buf, at + 2).Ok? && ReadVarInt(buf, at + 2).value.value == |body|
  }

  /** `buf` from `at` up to `to` is exactly the pieces `ps`, one after another. */
  predicate ParsesTo(buf: seq<byte>, at: nat, ps: seq<Piece>, to: nat)
    decreases ps
  {
    if ps == [] then at == to
    else PieceAt(buf, at, ps[0]) && ParsesTo(buf, at + |PieceBytes(ps[0])|, ps[1..], to)
  }

  /** `buf` from `at` on is exactly the pieces `ps`, one after another. */
  predicate Parses(buf: seq<byte>, at: nat, ps: seq<Piece>)
  {
    ParsesTo(buf, at, ps, |buf|)
  }

  lemma ParsesCons(buf: seq<byte>, at: nat, p: Piece, rest: seq<Piece>)
    requires PieceAt(buf, at, p) && Parses(buf, at + |PieceBytes(p)|, rest)
    ensures Parses(buf, at, [p] + rest)
  {
    hide PieceAt, ReadVarInt;
    assert ([p] + rest)[0] == p;
    assert ([p] + rest)[1..] == rest;
  }

  lemma ParsesUncons(buf: seq<byte>, at: nat, ps: seq<Piece>)
    requires Parses(buf, at, ps)
    ensures ps == [] ==> at == |buf|
    ensures ps != [] ==> PieceAt(buf, at, ps[0]) && Parses(buf, at + |PieceBytes(ps[0])|, ps[1..])
  {
    hide PieceAt, ReadVarInt;
    ParsesToUncons(buf, at, ps, |buf|);
  }

  lemma ParsesToUncons(buf: seq<byte>, at: nat, ps: seq<Piece>, to: nat)
    requires ParsesTo(buf, at, ps, to)
    ensures ps == [] ==> at == to
    ensures ps != [] ==> PieceAt(buf, at, ps[0]) && ParsesTo(buf, at + |PieceBytes(ps[0])|, ps[1..], to)
  {
    hide PieceAt, ReadVarInt;
  }

  /** The end of the buffer parses as no pieces, with no text. */
  lemma EmptyParse(buf: seq<byte>)
    ensures Parses(buf, |buf|, []) && Flatten([]) == [] && Kept([]) == []
    ensures Strip(buf, |buf|) == Ok([])
  {
  }

  lemma FlattenCons(pre: seq<byte>, ps: seq<Piece>)
    requires ps != []
    ensures pre + Flatten(ps) == (pre + PieceBytes(ps[0])) + Flatten(ps[1..])
  {
  }

  lemma SliceSplit(s: seq<byte>, i: nat, j: nat)
    requires i <= j <= |s|
    ensures s[i..] == s[i..j] + s[j..]
  {
  }

  /** The bytes of a piece at `at`. */
  lemma PieceAtBytes(buf: seq<byte>, at: nat, p: Piece)
    requires PieceAt(buf, at, p)
    ensures at + |PieceBytes(p)| <= |buf| && buf[at..at + |PieceBytes(p)|] == PieceBytes(p)
  {
  }

  lemma FlattenUnfold(ps: seq<Piece>)
    requires ps != []
    ensures Flatten(ps) == PieceBytes(ps[0]) + Flatten(ps[1..])
  {
  }

  lemma CoverStep(buf: seq<byte>, at: nat, head: seq<byte>, tail: seq<byte>)
    requires at + |head| <= |buf| && buf[at..at + |head|] == head
    requires tail == buf[at + |head|..]
    ensures head + tail == buf[at..]
  {
    SliceSplit(buf, at, at + |head|);
  }

  /** A parse covers the rest of the buffer, byte for byte. */
  lemma {:induction false} ParsesCovers(buf: seq<byte>, at: nat, ps: seq<Piece>)
    requires Parses(buf, at, ps)
    ensures at <= |buf| && Flatten(ps) == buf[at..]
    decreases ps
  {
    hide PieceAt, ReadVarInt, Parses, Flatten, PieceBytes;
    ParsesUncons(buf, at, ps);
    if ps == [] {
      EmptyParse(buf);
      assert buf[at..] == [];
    } else {
      var head := PieceBytes(ps[0]);
      PieceAtBytes(buf, at, ps[0]);
      ParsesCovers(buf, at + |head|, ps[1..]);
      FlattenUnfold(ps);
      CoverStep(buf, at, head, Flatten(ps[1..]));
    }
  }

  lemma FieldSlice(buf: seq<byte>, at: nat, next: nat)
    requires at + 4 <= next <= |buf| && buf[at] == START && buf[next - 1] == END
    ensures buf[at..next] == PieceBytes(Field(buf[at + 1], buf[at + 2], buf[at + 3..next - 1]))
  {
    var head, body, tail := buf[at..at + 3], buf[at + 3..next - 1], buf[next - 1..next];
    assert buf[at..next] == head + body + tail;
    assert head == [START, buf[at + 1], buf[at + 2]];
    assert tail == [END];
  }

  /** A field that `getText` skips is a piece at its START byte. */
  lemma SkippedFieldIsPiece(buf: seq<byte>, at: nat)
    requires at < |buf| && buf[at] == START && SkipField(buf, at).Ok?
    ensures PieceAt(buf, at, Field(buf[at + 1], buf[at + 2], buf[at + 3..SkipField(buf, at).value - 1]))
    ensures |PieceBytes(Field(buf[at + 1], buf[at + 2], buf[at + 3..SkipField(buf, at).value - 1]))|
         == SkipField(buf, at).value - at
  {
    hide ReadVarInt;
    var next := SkipField(buf, at).value;
    FieldSlice(buf, at, next);
  }

  /** Decoding from a piece's position yields the piece's text, then the rest. */
  lemma StripPiece(buf: seq<byte>, at: nat, p: Piece)
    requires PieceAt(buf, at, p)
    ensures Strip(buf, at) == Prepend(KeptOf(p), Strip(buf, at + |PieceBytes(p)|))
  {
    var size := |PieceBytes(p)|;
    assert buf[at] == PieceBytes(p)[0];
    if p.Field? {
      assert buf[at + size - 1] == END;
      assert SkipField(buf, at) == Ok(at + size);
      match Strip(buf, at + size)
      case Err(_) =>
      case Ok(s) => assert [] + s == s;
    }
  }

  /** The piece that starts at `cursor` of a buffer that decodes from there. */
  lemma NextPiece(buf: seq<byte>, cursor: nat) returns (p: Piece)
    requires cursor < |buf| && Strip(buf, cursor).Ok?
    ensures PieceAt(buf, cursor, p) && cursor + |PieceBytes(p)| <= |buf|
    ensures Strip(buf, cursor) == Prepend(KeptOf(p), Strip(buf, cursor + |PieceBytes(p)|))
  {
    hide SkipField, ReadVarInt;
    if buf[cursor] == START {
      SkippedFieldIsPiece(buf, cursor);
      p := Field(buf[cursor + 1], buf[cursor + 2], buf[cursor + 3..SkipField(buf, cursor).value - 1]);
    } else {
      assert buf[cursor..cursor + 1] == [buf[cursor]];
      p := Text(buf[cursor]);
    }
    StripPiece(buf, cursor, p);
  }

  lemma KeptCons(p: Piece, rest: seq<Piece>)
    ensures Kept([p] + rest) == KeptOf(p) + Kept(rest)
  {
    assert ([p] + rest)[1..] == rest;
  }

  /** Every successful decode is a parse of the buffer into text bytes and
      fields, and its output is the text bytes: the fields' spans, START
      through END, are what is removed. */
  lemma {:induction false} DecodeSound(buf: seq<byte>, cursor: nat)
    requires cursor <= |buf| && Strip(buf, cursor).Ok?
    ensures exists ps :: Parses(buf, cursor, ps) && Kept(ps) == Strip(buf, cursor).value
    decreases |buf| - cursor
  {
    hide PieceAt, SkipField, ReadVarInt, Strip, Kept, Parses, PieceBytes;
    if cursor == |buf| {
      EmptyParse(buf);
    } else {
      var p := NextPiece(buf, cursor);
      var next := cursor + |PieceBytes(p)|;
      DecodeSound(buf, next);
      var rest :| Parses(buf, next, rest) && Kept(rest) == Strip(buf, next).value;
      ParsesCons(buf, cursor, p, rest);
      KeptCons(p, rest);
    }
  }

  /** Every parse of the buffer decodes, to its text bytes. */
  lemma {:induction false} DecodeComplete(buf: seq<byte>, cursor: nat, ps: seq<Piece>)
    requires Parses(buf, cursor, ps)
    ensures cursor <= |buf| && Strip(buf, cursor) == Ok(Kept(ps))
    decreases ps
  {
    hide PieceAt, SkipField, ReadVarInt, Strip, Kept, Parses, PieceBytes;
    ParsesUncons(buf, cursor, ps);
    if ps != [] {
      var size := |PieceBytes(ps[0])|;
      DecodeComplete(buf, cursor + size, ps[1..]);
      StripPiece(buf, cursor, ps[0]);
      KeptCons(ps[0], ps[1..]);
      assert [ps[0]] + ps[1..] == ps;
    } else {
      EmptyParse(buf);
    }
  }

  /** `getText` succeeds with `out` exactly when the buffer parses into pieces
      whose text bytes are `out`. */
  lemma DecodeIffParses(buf: seq<byte>, out: seq<byte>)
    ensures DecodeText(buf) == Ok(out) <==> exists ps :: Parses(buf, 0, ps) && Kept(ps) == out
  {
    if DecodeText(buf) == Ok(out) {
      DecodeSound(buf, 0);
    }
    if exists ps :: Parses(buf, 0, ps) && Kept(ps) == out {
      var ps :| Parses(buf, 0, ps) && Kept(ps) == out;
      DecodeComplete(buf, 0, ps);
    }
  }

  /** Text bytes are not START, and every field carries an inline length
      marker `|body| + 1` below 0xD0. */
  predicate InlineWellFormed(ps: seq<Piece>)
  {
    forall i :: 0 <= i < |ps| ==>
      match ps[i]
      case Text(b) => b != START
      case Field(_, marker, body) => marker as int < INLINE_LIMIT && marker as int == |body| + 1
  }

  lemma InlinePieceAt(pre: seq<byte>, p: Piece, post: seq<byte>)
    requires InlineWellFormed([p])
    ensures PieceAt(pre + PieceBytes(p) + post, |pre|, p)
  {
    var buf := pre + PieceBytes(p) + post;
    assert [p][0] == p;
    assert buf[|pre|..|pre| + |PieceBytes(p)|] == PieceBytes(p);
    if p.Field? {
      assert buf[|pre| + 2] == p.marker;
    }
  }

  lemma InlineSplit(ps: seq<Piece>)
    requires InlineWellFormed(ps) && ps != []
    ensures InlineWellFormed([ps[0]]) && InlineWellFormed(ps[1..])
    ensures [ps[0]] + ps[1..] == ps
  {
    assert [ps[0]][0] == ps[0];
    forall i | 0 <= i < |ps| - 1
      ensures ps[1..][i] == ps[i + 1]
    {
    }
  }

  lemma {:induction false} InlineParses(ps: seq<Piece>, pre: seq<byte>)
    requires InlineWellFormed(ps)
    ensures Parses(pre + Flatten(ps), |pre|, ps)
    decreases ps
  {
    hide PieceAt, ReadVarInt, Parses, InlineWellFormed;
    if ps == [] {
      EmptyParse(pre + Flatten(ps));
    } else {
      var head := PieceBytes(ps[0]);
      InlineSplit(ps);
      InlineParses(ps[1..], pre + head);
      FlattenCons(pre, ps);
      InlinePieceAt(pre, ps[0], Flatten(ps[1..]));
      ParsesCons(pre + Flatten(ps), |pre|, ps[0], ps[1..]);
    }
  }

  /** Text bytes interleaved with inline-length fields decode to the text
      bytes alone: each field contributes nothing, whatever its kind and body. */
  lemma InlineFieldsRemoved(ps: seq<Piece>)
    requires InlineWellFormed(ps)
    ensures DecodeText(Flatten(ps)) == Ok(Kept(ps))
  {
    InlineParses(ps, []);
    assert [] + Flatten(ps) == Flatten(ps);
    DecodeComplete(Flatten(ps), 0, ps);
  }

  /** Decoding from the start of a parsed stretch yields the stretch's text
      bytes, then whatever decoding from its end yields. */
  lemma {:induction false} StripThroughPrefix(buf: seq<byte>, at: nat, ps: seq<Piece>, to: nat)
    requires ParsesTo(buf, at, ps, to) && to <= |buf|
    ensures at <= to
    ensures Strip(buf, at) == Prepend(Kept(ps), Strip(buf, to))
    decreases ps
  {
    hide PieceAt, SkipField, ReadVarInt, Strip, Kept, ParsesTo, PieceBytes;
    ParsesToUncons(buf, at, ps, to);
    if ps == [] {
      EmptyParse(buf);
      PrependNothing(Strip(buf, to));
    } else {
      var size := |PieceBytes(ps[0])|;
      PieceAtBytes(buf, at, ps[0]);
      StripThroughPrefix(buf, at + size, ps[1..], to);
      StripPiece(buf, at, ps[0]);
      PrependTwice(KeptOf(ps[0]), Kept(ps[1..]), Strip(buf, to));
      KeptCons(ps[0], ps[1..]);
      assert [ps[0]] + ps[1..] == ps;
    }
  }

  lemma PrependNothing(r: Result<seq<byte>>)
    ensures Prepend([], r) == r
  {
    if r.Ok? {
      assert [] + r.value == r.value;
    }
  }

  /** A field that fails to skip, reached after any stretch of text bytes and
      good fields, decides the outcome: the text before it is not returned,
      and nothing after it is looked at. */
  lemma FirstErrorAborts(buf: seq<byte>, ps: seq<Piece>, at: nat)
    requires ParsesTo(buf, 0, ps, at)
    requires at < |buf| && buf[at] == START && SkipField(buf, at).Err?
    ensures DecodeText(buf) == Err(SkipField(buf, at).error)
  {
    StripThroughPrefix(buf, 0, ps, at);
  }

  /** A field reached by the scan whose landing byte, one length byte plus the
      length past the kind byte, is not END — or lies past the end of the
      buffer — makes the whole decode fail with the missing-END error. */
  lemma MissingEndFails(buf: seq<byte>, ps: seq<Piece>, at: nat)
    requires ParsesTo(buf, 0, ps, at)
    requires at < |buf| && buf[at] == START
    requires ReadVarInt(buf, at + 2).Ok?
    requires var landing := at + 3 + ReadVarInt(buf, at + 2).value.value;
             landing >= |buf| || buf[landing] != END
    ensures DecodeText(buf) == Err(MissingEnd)
  {
    FirstErrorAborts(buf, ps, at);
  }

  /** A length marker of 0 reads as -1; the cursor then lands back on that
      marker, which is not END, so the field is rejected. */
  lemma ZeroLengthMarkerFails(buf: seq<byte>, at: nat)
    requires at + 2 < |buf| && buf[at + 2] == 0
    ensures ReadVarInt(buf, at + 2) == Ok(Read(-1, at + 3))
    ensures SkipField(buf, at) == Err(MissingEnd)
  {
  }

  /** The source resumes one length byte plus the length past the marker; the
      reader itself stops after all the bytes it consumed.  The two agree
      exactly for inline markers and for markers whose presence mask is empty. */
  lemma SkipAgreesWithReader(buf: seq<byte>, pos: nat)
    requires ReadVarInt(buf, pos).Ok?
    ensures var read := ReadVarInt(buf, pos).value;
            (pos + 1 + read.value == read.next + read.value)
              <==> (buf[pos] as int < INLINE_LIMIT || PopCount(MaskOf(buf[pos])) == 0)
  {
    ReadVarIntConsumes(buf, pos);
  }

  /** With a two-byte length encoding the source lands on the length's own
      last byte: the field `02 00 D7 01 58 03` carries length 1 and its body
      0x58 is followed by END, yet it is rejected. */
  lemma WideLengthRejected()
    ensures ReadVarInt([0x02, 0x00, 0xD7, 0x01, 0x58, 0x03], 2) == Ok(Read(1, 4))
    ensures DecodeText([0x02, 0x00, 0xD7, 0x01, 0x58, 0x03]) == Err(MissingEnd)
  {
    hide ReadVarInt;
    var buf: seq<byte> := [0x02, 0x00, 0xD7, 0x01, 0x58, 0x03];
    ReadOneByte(buf, 2);
    assert SkipField(buf, 0) == Err(MissingEnd);
  }

  /** Text around a field of kind 0 whose length marker 2 encodes length 1:
      only the text survives. */
  lemma KeptAroundField()
    ensures DecodeText([0x41, 0x02, 0x00, 0x02, 0x58, 0x03, 0x42]) == Ok([0x41, 0x42])
  {
    hide ReadVarInt;
    var buf: seq<byte> := [0x41, 0x02, 0x00, 0x02, 0x58, 0x03, 0x42];
    ReadShortForms(buf, 3);
    assert ReadVarInt(buf, 3) == Ok(Read(1, 4));
    assert SkipField(buf, 1) == Ok(6);
    assert Strip(buf, 7) == Ok([]);
    assert [buf[6]] + [] == [0x42];
    assert Strip(buf, 6) == Ok([0x42]);
    assert Strip(buf, 1) == Ok([0x42]);
    assert [buf[0]] + [0x42] == [0x41, 0x42];
  }

  /** The same field with its END byte replaced, or with a length one short,
      or with a length running past the buffer, is rejected; a START byte
      with nothing after it fails while reading the length. */
  lemma RejectedFields()
    ensures DecodeText([0x41, 0x02, 0x00, 0x02, 0x58, 0x04, 0x42]) == Err(MissingEnd)
    ensures DecodeText([0x41, 0x02, 0x00, 0x01, 0x58, 0x03, 0x42]) == Err(MissingEnd)
    ensures DecodeText([0x41, 0x02, 0x00, 0x09, 0x58]) == Err(MissingEnd)
    ensures DecodeText([0x41, 0x02]) == Err(Truncated)
    ensures DecodeText([0x41, 0x02, 0x00]) == Err(Truncated)
  {
    hide ReadVarInt;
    var badEnd: seq<byte> := [0x41, 0x02, 0x00, 0x02, 0x58, 0x04, 0x42];
    ReadShortForms(badEnd, 3);
    assert ReadVarInt(badEnd, 3) == Ok(Read(1, 4));
    assert SkipField(badEnd, 1) == Err(MissingEnd);
    var shortLength: seq<byte> := [0x41, 0x02, 0x00, 0x01, 0x58, 0x03, 0x42];
    ReadShortForms(shortLength, 3);
    assert ReadVarInt(shortLength, 3) == Ok(Read(0, 4));
    assert SkipField(shortLength, 1) == Err(MissingEnd);
    var tooLong: seq<byte> := [0x41, 0x02, 0x00, 0x09, 0x58];
    ReadShortForms(tooLong, 3);
    assert ReadVarInt(tooLong, 3) == Ok(Read(8, 4));
    assert SkipField(tooLong, 1) == Err(MissingEnd);
    var cut: seq<byte> := [0x41, 0x02];
    ReadShortForms(cut, 3);
    assert ReadVarInt(cut, 3) == Err(Truncated);
    assert SkipField(cut, 1) == Err(Truncated);
    var kindOnly: seq<byte> := [0x41, 0x02, 0x00];
    ReadShortForms(kindOnly, 3);
    assert SkipField(kindOnly, 1) == Err(Truncated);
  }

  /** A bad field after a good one: the good field's text is not returned. */
  lemma LaterFieldRejected()
    ensures DecodeText([0x02, 0x00, 0x02, 0x58, 0x03, 0x02, 0x00, 0x02, 0x58, 0x04]) == Err(MissingEnd)
  {
    hide ReadVarInt;
    var buf: seq<byte> := [0x02, 0x00, 0x02, 0x58, 0x03, 0x02, 0x00, 0x02, 0x58, 0x04];
    var good := Field(0x00, 0x02, [0x58]);
    ReadShortForms(buf, 2);
    ReadShortForms(buf, 7);
    assert buf[0..5] == PieceBytes(good);
    assert PieceAt(buf, 0, good);
    assert ParsesTo(buf, 5, [], 5);
    assert ParsesTo(buf, 0, [good], 5);
    MissingEndFails(buf, [good], 5);
  }
}
