/** The one-pass nesting check a body goes through before it is parsed as JSON. */
module JsonNesting {

  const MAX_NESTING := 32

  type Byte = b: int | 0 <= b < 256

  const QUOTE: Byte := 0x22
  const BACKSLASH: Byte := 0x5C
  const COMMA: Byte := 0x2C
  const COLON: Byte := 0x3A
  const LEFT_BRACKET: Byte := 0x5B
  const RIGHT_BRACKET: Byte := 0x5D
  const LEFT_BRACE: Byte := 0x7B
  const RIGHT_BRACE: Byte := 0x7D

  // ---- The scanner ----

  datatype Scan = Scan(depth: int, inString: bool, escaped: bool)

  function Step(s: Scan, c: Byte): Scan {
    if s.inString then
      if s.escaped then s.(escaped := false)
      else if c == BACKSLASH then s.(escaped := true)
      else if c == QUOTE then s.(inString := false)
      else s
    else if c == QUOTE then s.(inString := true)
    else if c == LEFT_BRACKET || c == LEFT_BRACE then s.(depth := s.depth + 1)
    else if c == RIGHT_BRACKET || c == RIGHT_BRACE then s.(depth := s.depth - 1)
    else s
  }

  function Run(s: Scan, body: seq<Byte>): Scan
    decreases |body|
  {
    if body == [] then s else Run(Step(s, body[0]), body[1..])
  }

  function Max(a: int, b: int): int {
    if a < b then b else a
  }

  /** The greatest depth at any point of the body. */
  function Peak(s: Scan, body: seq<Byte>): int
    decreases |body|
  {
    if body == [] then s.depth else Max(s.depth, Peak(Step(s, body[0]), body[1..]))
  }

  const START := Scan(0, false, false)

  method TooDeep(body: seq<Byte>) returns (deep: bool)
    ensures deep <==> Peak(START, body) > 32
  {
    var depth, inString, escaped := 0, false, false;
    var i := 0;
    while i < |body|
      invariant 0 <= i <= |body|
      invariant depth <= MAX_NESTING
      invariant Peak(START, body) > MAX_NESTING <==> Peak(Scan(depth, inString, escaped), body[i..]) > MAX_NESTING
    {
      var c := body[i];
      if inString {
        if escaped {
          escaped := false;
        } else if c == BACKSLASH {
          escaped := true;
        } else if c == QUOTE {
          inString := false;
        }
      } else if c == QUOTE {
        inString := true;
      } else if c == LEFT_BRACKET || c == LEFT_BRACE {
        depth := depth + 1;
        if depth > MAX_NESTING {
          PeakAtLeast(Scan(depth, inString, escaped), body[i + 1..]);
          return true;
        }
      } else if c == RIGHT_BRACKET || c == RIGHT_BRACE {
        depth := depth - 1;
      }
      i := i + 1;
    }
    return false;
  }

  lemma PeakAtLeast(s: Scan, body: seq<Byte>)
    ensures Peak(s, body) >= s.depth
  {
  }

  lemma {:induction false} RunConcat(s: Scan, a: seq<Byte>, b: seq<Byte>)
    ensures Run(s, a + b) == Run(Run(s, a), b)
    ensures Peak(s, a + b) == Max(Peak(s, a), Peak(Run(s, a), b))
    decreases |a|
  {
    if a == [] {
      assert a + b == b;
      PeakAtLeast(s, b);
    } else {
      assert (a + b)[1..] == a[1..] + b;
      RunConcat(Step(s, a[0]), a[1..], b);
    }
  }

  // ---- JSON texts ----

  /** One character of a string as it is written: itself, or a backslash and a byte (a \u
      escape is `Escape` and four plain digits). */
  datatype Piece = Plain(b: Byte) | Escape(b: Byte)

  /** A JSON value as it is written, with the white space between its tokens (sections 2, 4, 5
      and 7 of RFC 8259). `Scalar` is a number, true, false or null. */
  datatype Json =
    | Scalar(text: seq<Byte>)
    | Text(pieces: seq<Piece>)
    | Array(items: Items)
    | Object(members: Members)

  datatype Items =
    | NoItems(space: seq<Byte>)
    | Item(before: seq<Byte>, value: Json, after: seq<Byte>, rest: Items)

  datatype Members =
    | NoMembers(space: seq<Byte>)
    | Member(before: seq<Byte>, key: seq<Piece>, toColon: seq<Byte>, toValue: seq<Byte>, value: Json,
             after: seq<Byte>, rest: Members)

  predicate IsSpace(text: seq<Byte>) {
    forall b :: b in text ==> b == 0x20 || b == 0x09 || b == 0x0A || b == 0x0D
  }

  /** Letters, digits, signs and points: every number and literal name is written with these. */
  predicate IsScalarText(text: seq<Byte>) {
    forall b :: b in text ==>
      0x30 <= b <= 0x39 || 0x41 <= b <= 0x5A || 0x61 <= b <= 0x7A || b == 0x2B || b == 0x2D || b == 0x2E
  }

  predicate IsStringText(pieces: seq<Piece>) {
    forall p :: p in pieces ==> p.Plain? ==> p.b >= 0x20 && p.b != QUOTE && p.b != BACKSLASH
  }

  predicate WellFormed(v: Json) {
    match v
    case Scalar(text) => IsScalarText(text)
    case Text(pieces) => IsStringText(pieces)
    case Array(items) => WellFormedItems(items)
    case Object(members) => WellFormedMembers(members)
  }

  predicate WellFormedItems(items: Items) {
    match items
    case NoItems(space) => IsSpace(space)
    case Item(before, value, after, rest) =>
      IsSpace(before) && WellFormed(value) && IsSpace(after) && WellFormedItems(rest)
  }

  predicate WellFormedMembers(members: Members) {
    match members
    case NoMembers(space) => IsSpace(space)
    case Member(before, key, toColon, toValue, value, after, rest) =>
      && IsSpace(before) && IsStringText(key) && IsSpace(toColon) && IsSpace(toValue)
      && WellFormed(value) && IsSpace(after) && WellFormedMembers(rest)
  }

  function PrintPieces(pieces: seq<Piece>): seq<Byte> {
    if pieces == [] then []
    else PrintPiece(pieces[0]) + PrintPieces(pieces[1..])
  }

  function PrintPiece(p: Piece): seq<Byte> {
    match p
    case Plain(b) => [b]
    case Escape(b) => [BACKSLASH, b]
  }

  function PrintString(pieces: seq<Piece>): seq<Byte> {
    [QUOTE] + PrintPieces(pieces) + [QUOTE]
  }

  function Print(v: Json): seq<Byte> {
    match v
    case Scalar(text) => text
    case Text(pieces) => PrintString(pieces)
    case Array(items) => [LEFT_BRACKET] + PrintItems(items) + [RIGHT_BRACKET]
    case Object(members) => [LEFT_BRACE] + PrintMembers(members) + [RIGHT_BRACE]
  }

  function PrintItems(items: Items): seq<Byte> {
    match items
    case NoItems(space) => space
    case Item(before, value, after, rest) =>
      before + Print(value) + after + (if rest.Item? then [COMMA] else []) + PrintItems(rest)
  }

  function PrintMembers(members: Members): seq<Byte> {
    match members
    case NoMembers(space) => space
    case Member(before, key, toColon, toValue, value, after, rest) =>
      before + PrintString(key) + (toColon + [COLON] + toValue) + Print(value) + after +
      (if rest.Member? then [COMMA] else []) + PrintMembers(rest)
  }

  /** How many arrays and objects deep the value is. */
  function Nesting(v: Json): nat {
    match v
    case Scalar(_) => 0
    case Text(_) => 0
    case Array(items) => 1 + NestingOfItems(items)
    case Object(members) => 1 + NestingOfMembers(members)
  }

  function NestingOfItems(items: Items): nat {
    match items
    case NoItems(_) => 0
    case Item(_, value, _, rest) => Max(Nesting(value), NestingOfItems(rest))
  }

  function NestingOfMembers(members: Members): nat {
    match members
    case NoMembers(_) => 0
    case Member(_, _, _, _, value, _, rest) => Max(Nesting(value), NestingOfMembers(rest))
  }

  // ---- The scanner on a JSON text ----

  /** Scanned from `depth`, outside a string, `text` goes `height` deeper and comes back. */
  ghost predicate Rises(depth: int, text: seq<Byte>, height: int) {
    && Run(Scan(depth, false, false), text) == Scan(depth, false, false)
    && Peak(Scan(depth, false, false), text) == depth + height
  }

  lemma RisesConcat(depth: int, a: seq<Byte>, h: int, b: seq<Byte>, k: int)
    requires Rises(depth, a, h) && Rises(depth, b, k)
    ensures Rises(depth, a + b, Max(h, k))
  {
    RunConcat(Scan(depth, false, false), a, b);
  }

  lemma {:induction false} QuietRises(depth: int, text: seq<Byte>)
    requires forall b :: b in text ==>
      b != QUOTE && b != LEFT_BRACKET && b != RIGHT_BRACKET && b != LEFT_BRACE && b != RIGHT_BRACE
    ensures Rises(depth, text, 0)
  {
    if text != [] {
      assert text[0] in text && forall b :: b in text[1..] ==> b in text;
      QuietRises(depth, text[1..]);
    }
  }

  lemma {:induction false} PiecesStayInside(depth: int, pieces: seq<Piece>)
    requires IsStringText(pieces)
    ensures Run(Scan(depth, true, false), PrintPieces(pieces)) == Scan(depth, true, false)
    ensures Peak(Scan(depth, true, false), PrintPieces(pieces)) == depth
  {
    if pieces != [] {
      var within, rest := Scan(depth, true, false), PrintPieces(pieces[1..]);
      assert pieces[0] in pieces && forall p :: p in pieces[1..] ==> p in pieces;
      PiecesStayInside(depth, pieces[1..]);
      OnePiece(depth, pieces[0], rest);
    }
  }

  lemma OnePiece(depth: int, p: Piece, rest: seq<Byte>)
    requires IsStringText([p])
    ensures var within := Scan(depth, true, false); var text := PrintPiece(p) + rest;
      Run(within, text) == Run(within, rest) && Peak(within, text) == Max(depth, Peak(within, rest))
  {
    hide Run, Peak;
    var within := Scan(depth, true, false);
    assert [p][0] == p;
    match p {
      case Plain(b) =>
        StepFirst(within, b, rest);
      case Escape(b) =>
        assert PrintPiece(p) + rest == [BACKSLASH] + ([b] + rest);
        StepFirst(within, BACKSLASH, [b] + rest);
        StepFirst(Step(within, BACKSLASH), b, rest);
        PeakAtLeast(within, rest);
    }
  }

  lemma StepFirst(s: Scan, c: Byte, rest: seq<Byte>)
    ensures Run(s, [c] + rest) == Run(Step(s, c), rest)
    ensures Peak(s, [c] + rest) == Max(s.depth, Peak(Step(s, c), rest))
  {
    assert ([c] + rest)[1..] == rest;
  }

  lemma StringRises(depth: int, pieces: seq<Piece>)
    requires IsStringText(pieces)
    ensures Rises(depth, PrintString(pieces), 0)
  {
    var out, within := Scan(depth, false, false), Scan(depth, true, false);
    PiecesStayInside(depth, pieces);
    RunConcat(out, [QUOTE] + PrintPieces(pieces), [QUOTE]);
    RunConcat(out, [QUOTE], PrintPieces(pieces));
    assert Run(out, [QUOTE]) == within && Peak(out, [QUOTE]) == depth;
    assert Run(within, [QUOTE]) == out && Peak(within, [QUOTE]) == depth;
  }

  lemma BracketsRise(depth: int, open: Byte, text: seq<Byte>, close: Byte, h: nat)
    requires (open == LEFT_BRACKET && close == RIGHT_BRACKET) || (open == LEFT_BRACE && close == RIGHT_BRACE)
    requires Rises(depth + 1, text, h)
    ensures Rises(depth, [open] + text + [close], 1 + h)
  {
    var out, within := Scan(depth, false, false), Scan(depth + 1, false, false);
    RunConcat(out, [open] + text, [close]);
    RunConcat(out, [open], text);
    assert Run(out, [open]) == within && Peak(out, [open]) == depth + 1;
    assert Run(within, [close]) == out && Peak(within, [close]) == depth + 1;
  }

  lemma {:induction false} ValueRises(depth: int, v: Json)
    requires WellFormed(v)
    ensures Rises(depth, Print(v), Nesting(v))
    decreases v
  {
    hide Rises;
    match v
    case Scalar(text) => QuietRises(depth, text);
    case Text(pieces) => StringRises(depth, pieces);
    case Array(items) =>
      ItemsRise(depth + 1, items);
      BracketsRise(depth, LEFT_BRACKET, PrintItems(items), RIGHT_BRACKET, NestingOfItems(items));
    case Object(members) =>
      MembersRise(depth + 1, members);
      BracketsRise(depth, LEFT_BRACE, PrintMembers(members), RIGHT_BRACE, NestingOfMembers(members));
  }

  lemma {:induction false} ItemsRise(depth: int, items: Items)
    requires WellFormedItems(items)
    ensures Rises(depth, PrintItems(items), NestingOfItems(items))
    decreases items
  {
    hide Rises;
    match items
    case NoItems(space) => QuietRises(depth, space);
    case Item(before, value, after, rest) =>
      var comma := if rest.Item? then [COMMA] else [];
      QuietRises(depth, before);
      ValueRises(depth, value);
      QuietRises(depth, after);
      QuietRises(depth, comma);
      ItemsRise(depth, rest);
      RisesConcat(depth, before, 0, Print(value), Nesting(value));
      RisesConcat(depth, before + Print(value), Nesting(value), after, 0);
      RisesConcat(depth, before + Print(value) + after, Nesting(value), comma, 0);
      RisesConcat(depth, before + Print(value) + after + comma, Nesting(value), PrintItems(rest), NestingOfItems(rest));
  }

  lemma {:induction false} MembersRise(depth: int, members: Members)
    requires WellFormedMembers(members)
    ensures Rises(depth, PrintMembers(members), NestingOfMembers(members))
    decreases members
  {
    hide Rises;
    match members
    case NoMembers(space) => QuietRises(depth, space);
    case Member(before, key, toColon, toValue, value, after, rest) =>
      var comma := if rest.Member? then [COMMA] else [];
      var colon := toColon + [COLON] + toValue;
      QuietRises(depth, before);
      StringRises(depth, key);
      QuietRises(depth, colon);
      ValueRises(depth, value);
      QuietRises(depth, after);
      QuietRises(depth, comma);
      MembersRise(depth, rest);
      var head := before + PrintString(key) + colon;
      RisesConcat(depth, before, 0, PrintString(key), 0);
      RisesConcat(depth, before + PrintString(key), 0, colon, 0);
      RisesConcat(depth, head, 0, Print(value), Nesting(value));
      RisesConcat(depth, head + Print(value), Nesting(value), after, 0);
      RisesConcat(depth, head + Print(value) + after, Nesting(value), comma, 0);
      RisesConcat(depth, head + Print(value) + after + comma, Nesting(value),
                  PrintMembers(rest), NestingOfMembers(rest));
  }

  /** A JSON text, white space around its value included, is too deep exactly when the value
      nests more than 32 arrays and objects. */
  lemma TooDeepIffNesting(before: seq<Byte>, v: Json, after: seq<Byte>)
    requires IsSpace(before) && WellFormed(v) && IsSpace(after)
    ensures Peak(START, before + Print(v) + after) > 32 <==> Nesting(v) > 32
  {
    QuietRises(0, before);
    ValueRises(0, v);
    QuietRises(0, after);
    RisesConcat(0, before, 0, Print(v), Nesting(v));
    RisesConcat(0, before + Print(v), Nesting(v), after, 0);
  }
}
