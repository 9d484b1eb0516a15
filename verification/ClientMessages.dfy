/** The messages an RFB client sends (section 7.5 of RFC 6143, and the legacy message of type 1): their
    bytes, and a reference parser that follows the server's case analysis on a complete byte string. */
module ClientMessages {
  import opened Common
  import opened Rectangles
  import opened PixelFormat

  const CUT_TEXT_MAX_LENGTH := 4096

  /** Padding and payload the server skips are kept, so that a message determines its bytes. */
  datatype Message =
    | SetPixelFormat(before: seq<byte>, endianFlag: byte, format: Format, after: seq<byte>)
    | FixColourMap(firstColour: seq<byte>, colours: seq<byte>)
    | SetEncodings(padding: byte, encodings: seq<byte>)
    | UpdateRequest(incremental: byte, rect: Rect)
    | KeyEvent(key: seq<byte>)
    | PointerEvent(buttons: byte, x: nat, y: nat)
    | CutText(filler: seq<byte>, text: seq<byte>)

  /** The messages the server accepts. */
  predicate Acceptable(m: Message) {
    match m
    case SetPixelFormat(before, flag, f, after) =>
      |before| == 3 && |after| == 3 && (f.bigEndian <==> flag != 0) && f.Typed() && Supported(f)
    case FixColourMap(first, colours) => |first| == 3 && |colours| % 6 == 0 && |colours| < 6 * 0x1_0000
    case SetEncodings(_, encodings) => |encodings| % 4 == 0 && |encodings| < 4 * 0x1_0000
    case UpdateRequest(_, rect) => rect.Valid()
    case KeyEvent(key) => |key| == 7
    case PointerEvent(_, x, y) => x < 0x1_0000 && y < 0x1_0000
    case CutText(filler, text) => |filler| == 3 && |text| <= CUT_TEXT_MAX_LENGTH
  }

  function FormatBytes(flag: byte, f: Format): (b: seq<byte>)
    requires f.Typed()
    ensures |b| == 13
  {
    [f.bitsPerPixel, f.depth, flag, f.trueColour] + PutU16(f.redMax) + PutU16(f.greenMax) + PutU16(f.blueMax)
    + [f.redShift, f.greenShift, f.blueShift]
  }

  function Encode(m: Message): (b: seq<byte>)
    requires Acceptable(m)
    ensures |b| > 0
  {
    match m
    case SetPixelFormat(before, flag, f, after) => [0] + before + FormatBytes(flag, f) + after
    case FixColourMap(first, colours) => [1] + first + PutU16(|colours| / 6) + colours
    case SetEncodings(padding, encodings) => [2, padding] + PutU16(|encodings| / 4) + encodings
    case UpdateRequest(incremental, r) =>
      [3, incremental] + PutU16(r.x) + PutU16(r.y) + PutU16(r.width) + PutU16(r.height)
    case KeyEvent(key) => [4] + key
    case PointerEvent(buttons, x, y) => [5, buttons] + PutU16(x) + PutU16(y)
    case CutText(filler, text) => [6] + filler + PutU32(|text|) + text
  }

  predicate AllAcceptable(ms: seq<Message>) {
    forall i :: 0 <= i < |ms| ==> Acceptable(ms[i])
  }

  function EncodeAll(ms: seq<Message>): seq<byte>
    requires AllAcceptable(ms)
  {
    if ms == [] then [] else Encode(ms[0]) + EncodeAll(ms[1..])
  }

  datatype Parsed = Parsed(message: Message, size: nat)

  /** The format in the 19 bytes after the type of SetPixelFormat. */
  function BodyFormat(body: seq<byte>): (f: Format)
    requires |body| == 19
    ensures f.Typed()
  {
    Format(body[3], body[4], body[5] != 0, body[6], GetU16(body[7..9]), GetU16(body[9..11]), GetU16(body[11..13]),
           body[13], body[14], body[15])
  }

  /** The first message of `b`; None when `b` does not start with a complete acceptable message. */
  function Parse(b: seq<byte>): Option<Parsed> {
    if |b| == 0 then None
    else if b[0] == 0 then
      if |b| < 20 || !Supported(BodyFormat(b[1..20])) then None
      else Some(Parsed(SetPixelFormat(b[1..4], b[6], BodyFormat(b[1..20]), b[17..20]), 20))
    else if b[0] == 1 then
      if |b| < 6 || |b| < 6 + 6 * GetU16(b[4..6]) then None
      else var size := 6 + 6 * GetU16(b[4..6]); Some(Parsed(FixColourMap(b[1..4], b[6..size]), size))
    else if b[0] == 2 then
      if |b| < 4 || |b| < 4 + 4 * GetU16(b[2..4]) then None
      else var size := 4 + 4 * GetU16(b[2..4]); Some(Parsed(SetEncodings(b[1], b[4..size]), size))
    else if b[0] == 3 then
      if |b| < 10 then None
      else Some(Parsed(UpdateRequest(b[1], Rect(GetU16(b[2..4]), GetU16(b[4..6]), GetU16(b[6..8]), GetU16(b[8..10]))), 10))
    else if b[0] == 4 then
      if |b| < 8 then None else Some(Parsed(KeyEvent(b[1..8]), 8))
    else if b[0] == 5 then
      if |b| < 6 then None else Some(Parsed(PointerEvent(b[1], GetU16(b[2..4]), GetU16(b[4..6])), 6))
    else if b[0] == 6 then
      if |b| < 8 || GetU32(b[4..8]) > CUT_TEXT_MAX_LENGTH || |b| < 8 + GetU32(b[4..8]) then None
      else var size := 8 + GetU32(b[4..8]); Some(Parsed(CutText(b[1..4], b[8..size]), size))
    else None
  }

  /** The middle part of a concatenation. */
  lemma Part(a: seq<byte>, mid: seq<byte>, c: seq<byte>)
    ensures (a + mid + c)[|a|..|a| + |mid|] == mid
  {
  }

  lemma FormatRoundTrip(before: seq<byte>, flag: byte, f: Format, after: seq<byte>)
    requires |before| == 3 && |after| == 3 && f.Typed() && (f.bigEndian <==> flag != 0)
    ensures BodyFormat(before + FormatBytes(flag, f) + after) == f
  {
    var body := before + FormatBytes(flag, f) + after;
    assert body[7..9] == PutU16(f.redMax) && body[9..11] == PutU16(f.greenMax) && body[11..13] == PutU16(f.blueMax);
    U16RoundTrip(f.redMax);
    U16RoundTrip(f.greenMax);
    U16RoundTrip(f.blueMax);
  }

  lemma FormatIsFaithful(body: seq<byte>)
    requires |body| == 19
    ensures body[0..3] + FormatBytes(body[5], BodyFormat(body)) + body[16..19] == body
  {
    U16IsFaithful(body[7..9]);
    U16IsFaithful(body[9..11]);
    U16IsFaithful(body[11..13]);
  }

  // What the body of each message, received after its type, parses to.

  lemma ParseFormatBody(body: seq<byte>, rest: seq<byte>)
    requires |body| == 19
    ensures var f := BodyFormat(body);
      Parse([0] + body + rest)
      == if Supported(f) then Some(Parsed(SetPixelFormat(body[0..3], body[5], f, body[16..19]), 20)) else None
    ensures ([0] + body + rest)[20..] == rest
  {
    var b := [0] + body + rest;
    assert b[1..20] == body && b[1..4] == body[0..3] && b[17..20] == body[16..19];
  }

  lemma ParseColourMapBody(body: seq<byte>, rest: seq<byte>)
    requires |body| == 5
    ensures var size := 6 * GetU16(body[3..5]);
      Parse([1] + body + rest)
      == if |rest| < size then None else Some(Parsed(FixColourMap(body[0..3], rest[..size]), 6 + size))
    ensures var size := 6 * GetU16(body[3..5]);
      |rest| >= size ==> ([1] + body + rest)[6 + size..] == rest[size..]
  {
    var b := [1] + body + rest;
    assert b[4..6] == body[3..5] && b[1..4] == body[0..3];
    var size := 6 * GetU16(body[3..5]);
    if size <= |rest| {
      assert b[6..6 + size] == rest[..size];
    }
  }

  lemma ParseEncodingsBody(body: seq<byte>, rest: seq<byte>)
    requires |body| == 3
    ensures var size := 4 * GetU16(body[1..3]);
      Parse([2] + body + rest)
      == if |rest| < size then None else Some(Parsed(SetEncodings(body[0], rest[..size]), 4 + size))
    ensures var size := 4 * GetU16(body[1..3]);
      |rest| >= size ==> ([2] + body + rest)[4 + size..] == rest[size..]
  {
    var b := [2] + body + rest;
    assert b[2..4] == body[1..3];
    var size := 4 * GetU16(body[1..3]);
    if size <= |rest| {
      assert b[4..4 + size] == rest[..size];
    }
  }

  /** The rectangle in the nine bytes after the type of an update request. */
  function BodyRect(body: seq<byte>): (r: Rect)
    requires |body| == 9
    ensures r.Valid()
  {
    Rect(GetU16(body[1..3]), GetU16(body[3..5]), GetU16(body[5..7]), GetU16(body[7..9]))
  }

  lemma ParseRequestBody(body: seq<byte>, rest: seq<byte>)
    requires |body| == 9
    ensures Parse([3] + body + rest) == Some(Parsed(UpdateRequest(body[0], BodyRect(body)), 10))
    ensures ([3] + body + rest)[10..] == rest
  {
    var b := [3] + body + rest;
    assert b[2..4] == body[1..3] && b[4..6] == body[3..5] && b[6..8] == body[5..7] && b[8..10] == body[7..9];
  }

  lemma ParseKeyBody(rest: seq<byte>)
    ensures Parse([4] + rest) == if |rest| < 7 then None else Some(Parsed(KeyEvent(rest[..7]), 8))
    ensures |rest| >= 7 ==> ([4] + rest)[8..] == rest[7..]
  {
    if |rest| >= 7 {
      assert ([4] + rest)[1..8] == rest[..7];
    }
  }

  lemma ParsePointerBody(body: seq<byte>, rest: seq<byte>)
    requires |body| == 5
    ensures Parse([5] + body + rest) == Some(Parsed(PointerEvent(body[0], GetU16(body[1..3]), GetU16(body[3..5])), 6))
    ensures ([5] + body + rest)[6..] == rest
  {
    var b := [5] + body + rest;
    assert b[2..4] == body[1..3] && b[4..6] == body[3..5];
  }

  lemma ParseCutTextBody(body: seq<byte>, rest: seq<byte>)
    requires |body| == 7
    ensures var size := GetU32(body[3..7]);
      Parse([6] + body + rest)
      == if size > CUT_TEXT_MAX_LENGTH || |rest| < size then None
         else Some(Parsed(CutText(body[0..3], rest[..size]), 8 + size))
    ensures var size := GetU32(body[3..7]);
      |rest| >= size ==> ([6] + body + rest)[8 + size..] == rest[size..]
  {
    var b := [6] + body + rest;
    assert b[4..8] == body[3..7] && b[1..4] == body[0..3];
    var size := GetU32(body[3..7]);
    if size <= |rest| {
      assert b[8..8 + size] == rest[..size];
    }
  }

  /** No message is shorter than its fixed part, and what is parsed was there. */
  lemma SizeAtLeast(b: seq<byte>)
    requires |b| > 0
    ensures Parse(b).Some? ==> FixedSize(b[0]) <= Parse(b).value.size <= |b|
  {
  }

  function FixedSize(t: byte): nat {
    match t
    case 0 => 20
    case 1 => 6
    case 2 => 4
    case 3 => 10
    case 4 => 8
    case 5 => 6
    case 6 => 8
    case _ => 1
  }

  lemma FormatMessageRoundTrip(before: seq<byte>, flag: byte, f: Format, after: seq<byte>, rest: seq<byte>)
    requires Acceptable(SetPixelFormat(before, flag, f, after))
    ensures var m := SetPixelFormat(before, flag, f, after); Parse(Encode(m) + rest) == Some(Parsed(m, 20))
  {
    var format := FormatBytes(flag, f);
    var body := before + format + after;
    FormatRoundTrip(before, flag, f, after);
    ParseFormatBody(body, rest);
    assert Encode(SetPixelFormat(before, flag, f, after)) + rest == [0] + body + rest;
    assert body[0..3] == before && body[16..19] == after && body[5] == format[2] == flag;
  }

  /** The pieces of a message with a counted list of items. */
  lemma CountedFields(t: seq<byte>, head: seq<byte>, count: seq<byte>, items: seq<byte>, rest: seq<byte>)
    ensures var body := head + count;
      && body[0..|head|] == head && body[|head|..|head| + |count|] == count
      && t + head + count + items + rest == t + body + (items + rest)
      && (items + rest)[..|items|] == items
  {
  }

  lemma ColourMapRoundTrip(first: seq<byte>, colours: seq<byte>, rest: seq<byte>)
    requires Acceptable(FixColourMap(first, colours))
    ensures var m := FixColourMap(first, colours); Parse(Encode(m) + rest) == Some(Parsed(m, |Encode(m)|))
  {
    hide PutU16, GetU16, Supported, Parse;
    U16RoundTrip(|colours| / 6);
    CountedFields([1], first, PutU16(|colours| / 6), colours, rest);
    ParseColourMapBody(first + PutU16(|colours| / 6), colours + rest);
  }

  lemma EncodingsRoundTrip(padding: byte, encodings: seq<byte>, rest: seq<byte>)
    requires Acceptable(SetEncodings(padding, encodings))
    ensures var m := SetEncodings(padding, encodings); Parse(Encode(m) + rest) == Some(Parsed(m, |Encode(m)|))
  {
    hide PutU16, GetU16, Supported, Parse;
    U16RoundTrip(|encodings| / 4);
    CountedFields([2], [padding], PutU16(|encodings| / 4), encodings, rest);
    assert [2, padding] == [2] + [padding];
    ParseEncodingsBody([padding] + PutU16(|encodings| / 4), encodings + rest);
  }

  lemma FourFields(incremental: byte, x: seq<byte>, y: seq<byte>, w: seq<byte>, h: seq<byte>)
    requires |x| == |y| == |w| == |h| == 2
    ensures var body := [incremental] + x + y + w + h;
      && |body| == 9 && body[0] == incremental
      && body[1..3] == x && body[3..5] == y && body[5..7] == w && body[7..9] == h
      && [3, incremental] + x + y + w + h == [3] + body
  {
  }

  lemma RequestRoundTrip(incremental: byte, r: Rect, rest: seq<byte>)
    requires r.Valid()
    ensures var m := UpdateRequest(incremental, r); Parse(Encode(m) + rest) == Some(Parsed(m, 10))
  {
    U16RoundTrip(r.x); U16RoundTrip(r.y); U16RoundTrip(r.width); U16RoundTrip(r.height);
    hide PutU16, GetU16, Supported, Parse;
    var x, y, w, h := PutU16(r.x), PutU16(r.y), PutU16(r.width), PutU16(r.height);
    FourFields(incremental, x, y, w, h);
    ParseRequestBody([incremental] + x + y + w + h, rest);
  }

  lemma TwoFields(buttons: byte, x: seq<byte>, y: seq<byte>)
    requires |x| == |y| == 2
    ensures var body := [buttons] + x + y;
      && |body| == 5 && body[0] == buttons && body[1..3] == x && body[3..5] == y
      && [5, buttons] + x + y == [5] + body
  {
  }

  lemma PointerRoundTrip(buttons: byte, x: nat, y: nat, rest: seq<byte>)
    requires x < 0x1_0000 && y < 0x1_0000
    ensures var m := PointerEvent(buttons, x, y); Parse(Encode(m) + rest) == Some(Parsed(m, 6))
  {
    U16RoundTrip(x); U16RoundTrip(y);
    hide PutU16, GetU16, Supported, Parse;
    TwoFields(buttons, PutU16(x), PutU16(y));
    ParsePointerBody([buttons] + PutU16(x) + PutU16(y), rest);
  }

  lemma CutTextRoundTrip(filler: seq<byte>, text: seq<byte>, rest: seq<byte>)
    requires Acceptable(CutText(filler, text))
    ensures var m := CutText(filler, text); Parse(Encode(m) + rest) == Some(Parsed(m, |Encode(m)|))
  {
    hide PutU32, GetU32, Supported, Parse;
    U32RoundTrip(|text|);
    CountedFields([6], filler, PutU32(|text|), text, rest);
    ParseCutTextBody(filler + PutU32(|text|), text + rest);
  }

  /** Whatever follows it, an acceptable message is parsed back, and consumes exactly its own bytes. */
  lemma ParseRoundTrip(m: Message, rest: seq<byte>)
    requires Acceptable(m)
    ensures Parse(Encode(m) + rest) == Some(Parsed(m, |Encode(m)|))
  {
    match m
    case SetPixelFormat(before, flag, f, after) => FormatMessageRoundTrip(before, flag, f, after, rest);
    case FixColourMap(first, colours) => ColourMapRoundTrip(first, colours, rest);
    case SetEncodings(padding, encodings) => EncodingsRoundTrip(padding, encodings, rest);
    case UpdateRequest(incremental, r) => RequestRoundTrip(incremental, r, rest);
    case KeyEvent(key) =>
      assert [4] + key + rest == Encode(m) + rest;
      Part([4], key, rest);
    case PointerEvent(buttons, x, y) => PointerRoundTrip(buttons, x, y, rest);
    case CutText(filler, text) => CutTextRoundTrip(filler, text, rest);
  }

  lemma FixedSizeIsFaithful(b: seq<byte>)
    requires Parse(b).Some? && b[0] in {0, 3, 4, 5}
    ensures var p := Parse(b).value;
      Acceptable(p.message) && p.size <= |b| && Encode(p.message) == b[..p.size]
  {
    if b[0] == 0 {
      FormatIsFaithful(b[1..20]);
      assert b[..20] == [b[0]] + b[1..20];
      assert b[1..20][0..3] == b[1..4] && b[1..20][16..19] == b[17..20] && b[1..20][5] == b[6];
    } else if b[0] == 3 {
      U16IsFaithful(b[2..4]); U16IsFaithful(b[4..6]); U16IsFaithful(b[6..8]); U16IsFaithful(b[8..10]);
      assert b[..10] == [b[0], b[1]] + b[2..4] + b[4..6] + b[6..8] + b[8..10];
    } else if b[0] == 4 {
      assert b[..8] == [b[0]] + b[1..8];
    } else {
      U16IsFaithful(b[2..4]); U16IsFaithful(b[4..6]);
      assert b[..6] == [b[0], b[1]] + b[2..4] + b[4..6];
    }
  }

  lemma ColourMapIsFaithful(b: seq<byte>)
    requires Parse(b).Some? && b[0] == 1
    ensures var p := Parse(b).value;
      Acceptable(p.message) && p.size <= |b| && Encode(p.message) == b[..p.size]
  {
    hide PutU16, PutU32, GetU16, GetU32, Supported;
    var p := Parse(b).value;
    U16IsFaithful(b[4..6]);
    assert b[..p.size] == [b[0]] + b[1..4] + b[4..6] + b[6..p.size];
  }

  lemma EncodingsIsFaithful(b: seq<byte>)
    requires Parse(b).Some? && b[0] == 2
    ensures var p := Parse(b).value;
      Acceptable(p.message) && p.size <= |b| && Encode(p.message) == b[..p.size]
  {
    hide PutU16, PutU32, GetU16, GetU32, Supported;
    var p := Parse(b).value;
    U16IsFaithful(b[2..4]);
    assert b[..p.size] == [b[0], b[1]] + b[2..4] + b[4..p.size];
  }

  lemma CutTextIsFaithful(b: seq<byte>)
    requires Parse(b).Some? && b[0] == 6
    ensures var p := Parse(b).value;
      Acceptable(p.message) && p.size <= |b| && Encode(p.message) == b[..p.size]
  {
    hide PutU16, PutU32, GetU16, GetU32, Supported;
    var p := Parse(b).value;
    U32IsFaithful(b[4..8]);
    assert b[..p.size] == [b[0]] + b[1..4] + b[4..8] + b[8..p.size];
  }

  /** What is parsed is acceptable and its bytes are the ones consumed. */
  lemma ParseIsFaithful(b: seq<byte>)
    requires Parse(b).Some?
    ensures var p := Parse(b).value;
      Acceptable(p.message) && p.size <= |b| && Encode(p.message) == b[..p.size]
  {
    match b[0]
    case 1 => ColourMapIsFaithful(b);
    case 2 => EncodingsIsFaithful(b);
    case 6 => CutTextIsFaithful(b);
    case _ => FixedSizeIsFaithful(b);
  }

  /** Two acceptable messages at the start of the same bytes are the same message. */
  lemma EncodingIsPrefixFree(m: Message, n: Message, rest: seq<byte>, other: seq<byte>)
    requires Acceptable(m) && Acceptable(n) && Encode(m) + rest == Encode(n) + other
    ensures m == n && rest == other
  {
    ParseRoundTrip(m, rest);
    ParseRoundTrip(n, other);
    assert rest == (Encode(m) + rest)[|Encode(m)|..];
    assert other == (Encode(n) + other)[|Encode(n)|..];
  }

  lemma {:induction false} EncodeAllAppend(ms: seq<Message>, m: Message)
    requires AllAcceptable(ms) && Acceptable(m)
    ensures AllAcceptable(ms + [m])
    ensures EncodeAll(ms + [m]) == EncodeAll(ms) + Encode(m)
  {
    hide Encode, Acceptable;
    if ms == [] {
      assert [m][1..] == [];
      assert EncodeAll([m]) == Encode(m) + EncodeAll([]);
    } else {
      EncodeAllAppend(ms[1..], m);
      assert (ms + [m])[1..] == ms[1..] + [m];
    }
  }

  lemma HeadsAgree(ms: seq<Message>, left: seq<byte>, got: seq<Message>, rest: seq<byte>)
    requires AllAcceptable(ms) && AllAcceptable(got) && got != []
    requires EncodeAll(ms) + left == EncodeAll(got) + rest && |left| <= |rest|
    ensures ms != [] && ms[0] == got[0] && EncodeAll(ms[1..]) + left == EncodeAll(got[1..]) + rest
  {
    var head, tail := EncodeAllHead(got);
    assert |EncodeAll(ms)| > 0;
    var head', tail' := EncodeAllHead(ms);
    SameHead(ms[0], got[0], head', tail', left, head, tail, rest);
  }

  lemma SameHead(m: Message, n: Message, head': seq<byte>, tail': seq<byte>, left: seq<byte>,
                 head: seq<byte>, tail: seq<byte>, rest: seq<byte>)
    requires Acceptable(m) && Acceptable(n) && head' == Encode(m) && head == Encode(n)
    requires head' + tail' + left == head + tail + rest
    ensures m == n && tail' + left == tail + rest
  {
    hide Encode, Acceptable;
    assert (head + tail) + rest == head + (tail + rest);
    assert (head' + tail') + left == head' + (tail' + left);
    EncodingIsPrefixFree(m, n, tail' + left, tail + rest);
  }

  lemma EncodeAllHead(ms: seq<Message>) returns (head: seq<byte>, tail: seq<byte>)
    requires AllAcceptable(ms) && ms != []
    ensures |head| > 0 && head == Encode(ms[0]) && tail == EncodeAll(ms[1..]) && EncodeAll(ms) == head + tail
  {
    head, tail := Encode(ms[0]), EncodeAll(ms[1..]);
  }

  /** Of two ways to split the same bytes into messages and a rest, the one with the shorter rest continues
      the other. */
  lemma {:induction false} SplitsAreNested(ms: seq<Message>, left: seq<byte>, got: seq<Message>, rest: seq<byte>)
    requires AllAcceptable(ms) && AllAcceptable(got)
    requires EncodeAll(ms) + left == EncodeAll(got) + rest && |left| <= |rest|
    ensures got <= ms && rest == EncodeAll(ms[|got|..]) + left
  {
    if got == [] {
      assert ms[0..] == ms;
    } else {
      HeadsAgree(ms, left, got, rest);
      SplitsAreNested(ms[1..], left, got[1..], rest);
      PrefixOfTails(ms, got);
    }
  }

  lemma PrefixOfTails(ms: seq<Message>, got: seq<Message>)
    requires ms != [] && got != [] && ms[0] == got[0] && got[1..] <= ms[1..]
    ensures got <= ms && ms[1..][|got| - 1..] == ms[|got|..]
  {
    assert got == [got[0]] + got[1..] && ms == [ms[0]] + ms[1..];
  }

  /** When nothing more can be parsed from the rest, everything was decoded and nothing is left. */
  lemma DecodedIsAll(ms: seq<Message>, got: seq<Message>, rest: seq<byte>)
    requires AllAcceptable(ms) && AllAcceptable(got)
    requires EncodeAll(ms) == EncodeAll(got) + rest && Parse(rest).None?
    ensures got == ms && rest == []
  {
    assert EncodeAll(ms) + [] == EncodeAll(ms);
    SplitsAreNested(ms, [], got, rest);
    var others := ms[|got|..];
    assert rest == EncodeAll(others);
    if others != [] {
      ParseRoundTrip(others[0], EncodeAll(others[1..]));
      assert false;
    }
  }

  /** Where the k-th of the messages begins. */
  function BeginOf(ms: seq<Message>, k: nat): (n: nat)
    requires AllAcceptable(ms) && k <= |ms|
  {
    if k == 0 then 0 else BeginOf(ms, k - 1) + |Encode(ms[k - 1])|
  }

  /** The first `n` bytes of the messages are complete messages. */
  ghost predicate AtMessageEnd(ms: seq<Message>, n: int)
    requires AllAcceptable(ms)
  {
    exists k :: 0 <= k <= |ms| && n == BeginOf(ms, k)
  }

  lemma {:induction false} BeginIsLength(ms: seq<Message>, k: nat)
    requires AllAcceptable(ms) && k <= |ms|
    ensures AllAcceptable(ms[..k]) && |EncodeAll(ms[..k])| == BeginOf(ms, k)
  {
    hide Encode, Acceptable;
    if k > 0 {
      BeginIsLength(ms, k - 1);
      EncodeAllAppend(ms[..k - 1], ms[k - 1]);
      assert ms[..k] == ms[..k - 1] + [ms[k - 1]];
    }
  }

  lemma {:induction false} BeginsGrow(ms: seq<Message>, j: nat, k: nat)
    requires AllAcceptable(ms) && j <= k <= |ms|
    ensures BeginOf(ms, j) <= BeginOf(ms, k)
  {
    hide Encode, Acceptable;
    if j < k {
      BeginsGrow(ms, j, k - 1);
    }
  }

  /** A place properly inside the k-th message is no message end. */
  lemma InsideMessage(ms: seq<Message>, k: nat, got: int)
    requires AllAcceptable(ms) && k < |ms| && 0 < got < |Encode(ms[k])|
    ensures AllAcceptable(ms[..k]) && !AtMessageEnd(ms, |EncodeAll(ms[..k])| + got)
  {
    hide Encode, Acceptable, EncodeAll;
    BeginIsLength(ms, k);
    assert BeginOf(ms, k + 1) == BeginOf(ms, k) + |Encode(ms[k])|;
    hide BeginOf;
    forall j | 0 <= j <= |ms| ensures BeginOf(ms, j) != BeginOf(ms, k) + got {
      if j <= k {
        BeginsGrow(ms, j, k);
      } else {
        BeginsGrow(ms, k + 1, j);
      }
    }
  }

  /** What is parsed from the messages after the first k is the next one. */
  lemma FirstSize(ms: seq<Message>, k: nat)
    requires AllAcceptable(ms) && k <= |ms| && Parse(EncodeAll(ms[k..])).Some?
    ensures k < |ms| && Parse(EncodeAll(ms[k..])).value.size == |Encode(ms[k])|
  {
    hide Encode, Acceptable;
    var others := ms[k..];
    if others == [] {
      NothingParsed();
      assert false;
    }
    ParseRoundTrip(others[0], EncodeAll(others[1..]));
  }

  lemma NothingParsed()
    ensures Parse([]).None?
  {
  }
}
