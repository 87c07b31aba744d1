/** The response format of a search: a header listing its own length and the length of every block,
    then the blocks; and the decoder of the test client. */
module Framing {
  import opened Base
  import opened Strings

  /** The sizes of the blocks, each followed by a semicolon. */
  function Sizes(blocks: seq<string>): string {
    if blocks == [] then "" else Decimal(|blocks[0]|) + ";" + Sizes(blocks[1..])
  }

  /** How many digits the header reserves for its own length. */
  function ReservedDigits(n: nat): nat {
    var k := |Decimal(n)|;
    if |Decimal(n + k + 1)| != k then k + 1 else k
  }

  function SizeInfo(blocks: seq<string>): string {
    var sizes := Sizes(blocks);
    Decimal(|sizes| + ReservedDigits(|sizes|) + 1) + ";" + sizes
  }

  function Encode(blocks: seq<string>): string {
    SizeInfo(blocks) + Concat(blocks)
  }

  /** The response body; None is the empty answer with status 204. */
  method WriteTopResult(blocks: seq<string>) returns (body: Option<string>)
    ensures body == if blocks == [] then None else Some(Encode(blocks))
  {
    if |blocks| == 0 {
      return None;
    }
    var sizes := "";
    var i := 0;
    while i < |blocks|
      invariant 0 <= i <= |blocks| && sizes == Sizes(blocks[..i])
    {
      assert blocks[..i + 1] == blocks[..i] + [blocks[i]];
      SizesAppend(blocks[..i], blocks[i]);
      sizes := sizes + (Decimal(|blocks[i]|) + ";");
      i := i + 1;
    }
    assert blocks[..i] == blocks;
    var sizesStrlen := |Decimal(|sizes|)|;
    if |Decimal(|sizes| + sizesStrlen + 1)| != sizesStrlen {
      sizesStrlen := sizesStrlen + 1;
    }
    var sizeInfo := Decimal(|sizes| + sizesStrlen + 1) + ";" + sizes;
    var data := ConcatString(blocks);
    return Some(sizeInfo + data);
  }

  lemma {:induction false} SizesAppend(blocks: seq<string>, b: string)
    ensures Sizes(blocks + [b]) == Sizes(blocks) + (Decimal(|b|) + ";")
  {
    if blocks == [] {
      assert blocks + [b] == [b] && [b][1..] == [];
    } else {
      assert (blocks + [b])[1..] == blocks[1..] + [b];
      SizesAppend(blocks[1..], b);
    }
  }

  // ---------------------------------------------------------------- the header describes itself

  /** Adding one to `k + 2` to a number of `k` digits gives `k` digits, or one more if the sum
      reaches 10^k. */
  lemma DigitsAfterAdding(n: nat, d: nat)
    requires 1 <= d <= |Decimal(n)| + 2
    ensures var k := |Decimal(n)|;
            |Decimal(n + d)| == if n + d < Pow10(k) then k else k + 1
  {
    var k := |Decimal(n)|;
    DigitCount(n);
    Pow10Exceeds(k);
    assert Pow10(k + 1) == 10 * Pow10(k);
    if n == 0 {
      assert Decimal(0) == [Digit(0)] && Pow10(0) == 1 && Pow10(1) == 10;
    }
    DigitsIf(n + d, if n + d < Pow10(k) then k else k + 1);
  }

  /** One correction of the digit count is always enough. */
  lemma ReservedDigitsAreExact(n: nat)
    ensures |Decimal(n + ReservedDigits(n) + 1)| == ReservedDigits(n)
  {
    var k := |Decimal(n)|;
    DigitsAfterAdding(n, k + 1);
    DigitsAfterAdding(n, k + 2);
  }

  /** The leading number of a response is the length of the header that contains it. */
  lemma HeaderStatesItsOwnLength(blocks: seq<string>)
    ensures var n := |Sizes(blocks)|;
            |SizeInfo(blocks)| == n + ReservedDigits(n) + 1
  {
    ReservedDigitsAreExact(|Sizes(blocks)|);
  }

  // ---------------------------------------------------------------- decoding

  /** The decoder's conversion of a piece of text; it accepts the empty text as zero. */
  function Number(s: string): Option<nat> {
    if forall i :: 0 <= i < |s| ==> IsDigit(s[i]) then Some(NumberOf(s)) else None
  }

  /** `slice` of the decoder: a negative end counts from the end of the text, and ends out of range
      are moved into range. */
  function Slice(s: string, from: nat, to: int): string {
    var hi := Max(0, Min(if to < 0 then |s| + to else to, |s|));
    if from <= hi then s[from..hi] else ""
  }

  /** JavaScript's `split`: the pieces between semicolons, empty ones included. */
  function SplitAll(s: string): (r: seq<string>)
    ensures r != []
  {
    match Find(s, ";")
    case None => [s]
    case Some(p) => [s[..p]] + SplitAll(s[p + 1..])
  }

  datatype Decoded = Blocks(blocks: seq<string>) | FormatError

  /** What the conversion reads: digits as a number, nothing as zero, anything else not at all. */
  lemma NumberIs(n: nat, s: string, i: nat)
    ensures Number(Decimal(n)) == Some(n) && Number("") == Some(0)
    ensures i < |s| && !IsDigit(s[i]) ==> Number(s) == None
  {
    NumberOfDecimal(n);
  }

  /** Ends beyond the text are the end of the text, and negative ends count from there. */
  lemma SliceIs(s: string, from: nat, to: int)
    ensures from <= to <= |s| ==> Slice(s, from, to) == s[from..to]
    ensures from <= |s| < to ==> Slice(s, from, to) == s[from..]
    ensures to < 0 && from <= |s| + to ==> Slice(s, from, to) == s[from..|s| + to]
    ensures (0 <= to < from || |s| <= from || (to < 0 && |s| + to < from)) ==> Slice(s, from, to) == ""
  {
  }

  /** Blocks already cut, in front of what is still to come. */
  function Behind(data: seq<string>, rest: Decoded): Decoded {
    match rest
    case FormatError => FormatError
    case Blocks(blocks) => Blocks(data + blocks)
  }

  /** Cuts blocks of the given sizes out of `body`, starting at `pointer`. */
  function CutBlocks(body: string, sizes: seq<string>, pointer: nat): Decoded {
    if sizes == [] then Blocks([])
    else match Number(sizes[0])
      case None => FormatError
      case Some(size) =>
        Behind([Slice(body, pointer, pointer + size)], CutBlocks(body, sizes[1..], pointer + size))
  }

  /** The number before the first semicolon, which must lie in the first 100 bytes. */
  function InfoLength(body: string): Option<nat> {
    match Find(body, ";")
    case None => None
    case Some(p) => if p < 100 then Number(body[..p]) else None
  }

  function Decode(body: string): Decoded {
    match InfoLength(body)
    case None => FormatError
    case Some(infoLength) =>
      var sizes := SplitAll(Slice(body, 0, infoLength - 1));
      match Number(sizes[0])
      case None => FormatError
      case Some(pointer) => CutBlocks(body, sizes[1..], pointer)
  }

  lemma SemicolonAt(body: string, i: nat)
    requires i < |body|
    ensures At(body, ";", i) <==> body[i] == ';'
  {
    assert body[i..i + 1] == [body[i]];
  }

  /** The first semicolon is at `pos`, or none is found before `pos`. */
  lemma FirstSemicolon(body: string, pos: nat)
    requires forall j :: 0 <= j < pos && j < |body| ==> body[j] != ';'
    ensures pos < |body| && body[pos] == ';' ==> Find(body, ";") == Some(pos)
    ensures Find(body, ";").Some? ==> Find(body, ";").value >= pos
  {
    FindsFirst(body, ";");
    var r := Find(body, ";");
    if r.Some? {
      SemicolonAt(body, r.value);
    }
    if pos < |body| {
      SemicolonAt(body, pos);
    }
  }

  /** Without a semicolon in its first 100 bytes, or with anything but digits before it, a response is
      refused. */
  lemma DecodeRefuses(body: string, p: nat, i: nat)
    ensures (forall j :: 0 <= j < 100 && j < |body| ==> body[j] != ';') ==> Decode(body) == FormatError
    ensures (p < |body| && body[p] == ';' && (forall j :: 0 <= j < p ==> body[j] != ';') && i < p && !IsDigit(body[i]))
            ==> Decode(body) == FormatError
  {
    if forall j :: 0 <= j < 100 && j < |body| ==> body[j] != ';' {
      FirstSemicolon(body, 100);
    }
    if p < |body| && body[p] == ';' && forall j :: 0 <= j < p ==> body[j] != ';' {
      FirstSemicolon(body, p);
      if i < p && !IsDigit(body[i]) {
        assert body[..p][i] == body[i];
      }
    }
  }

  /** The first loop of the decoder. */
  method ReadInfoLength(body: string) returns (infoLength: Option<nat>)
    ensures infoLength == InfoLength(body)
  {
    var pos := 0;
    while pos < 100
      invariant 0 <= pos <= 100
      invariant forall j :: 0 <= j < pos && j < |body| ==> body[j] != ';'
    {
      if pos < |body| && body[pos] == ';' {
        FirstSemicolon(body, pos);
        return Number(body[..pos]);
      }
      pos := pos + 1;
    }
    FirstSemicolon(body, pos);
    return None;
  }

  lemma BehindBoth(a: seq<string>, b: seq<string>, rest: Decoded)
    ensures Behind(a + b, rest) == Behind(a, Behind(b, rest))
  {
    if rest.Blocks? {
      Associative(a, b, rest.blocks);
    }
  }

  /** The second loop: one block per size. */
  method ReadBlocks(body: string, sizes: seq<string>, start: nat) returns (r: Decoded)
    ensures r == CutBlocks(body, sizes, start)
  {
    var pointer := start;
    var data := [];
    var i := 0;
    while i < |sizes|
      invariant 0 <= i <= |sizes|
      invariant CutBlocks(body, sizes, start) == Behind(data, CutBlocks(body, sizes[i..], pointer))
    {
      assert sizes[i..][1..] == sizes[i + 1..];
      var size := Number(sizes[i]);
      if size.None? {
        return FormatError;
      }
      var block := Slice(body, pointer, pointer + size.value);
      BehindBoth(data, [block], CutBlocks(body, sizes[i + 1..], pointer + size.value));
      data := data + [block];
      pointer := pointer + size.value;
      i := i + 1;
    }
    return Blocks(data);
  }

  method ParseServerResponse(body: string) returns (r: Decoded)
    ensures r == Decode(body)
  {
    var infoLength := ReadInfoLength(body);
    if infoLength.None? {
      return FormatError;
    }
    var sizes := SplitAll(Slice(body, 0, infoLength.value as int - 1));
    var pointer := Number(sizes[0]);
    if pointer.None? {
      return FormatError;
    }
    r := ReadBlocks(body, sizes[1..], pointer.value);
  }

  // ---------------------------------------------------------------- round trip

  /** The pieces that the decoder finds in the header, without its last semicolon. */
  function SizePieces(blocks: seq<string>): (r: seq<string>)
    ensures |r| == |blocks|
  {
    if blocks == [] then [] else [Decimal(|blocks[0]|)] + SizePieces(blocks[1..])
  }

  lemma NoSemicolon(n: nat)
    ensures ';' !in Decimal(n)
    ensures Number(Decimal(n)) == Some(n)
  {
    NumberOfDecimal(n);
  }

  lemma {:induction false} SizesAreJoined(blocks: seq<string>)
    requires blocks != []
    ensures Sizes(blocks) == Join(SizePieces(blocks), ";") + ";"
    decreases blocks
  {
    if |blocks| > 1 {
      SizesAreJoined(blocks[1..]);
      assert SizePieces(blocks)[1..] == SizePieces(blocks[1..]);
    } else {
      assert blocks[1..] == [];
    }
  }

  lemma {:induction false} SplitAllOfJoin(pieces: seq<string>)
    requires pieces != [] && forall i :: 0 <= i < |pieces| ==> ';' !in pieces[i]
    ensures SplitAll(Join(pieces, ";")) == pieces
  {
    if |pieces| == 1 {
      FindNowhere(pieces[0], ";");
    } else {
      var rest := Join(pieces[1..], ";");
      SplitAllOfJoin(pieces[1..]);
      FindBehind(pieces[0], ";", rest);
      var text := pieces[0] + ";" + rest;
      assert text[..|pieces[0]|] == pieces[0] && text[|pieces[0]| + 1..] == rest;
    }
  }

  lemma {:induction false} PiecesHaveNoSemicolon(blocks: seq<string>)
    ensures forall i :: 0 <= i < |blocks| ==> ';' !in SizePieces(blocks)[i]
    decreases blocks
  {
    if blocks == [] {
    } else {
      NoSemicolon(|blocks[0]|);
      PiecesHaveNoSemicolon(blocks[1..]);
    }
  }

  /** The header is its pieces joined by semicolons, and one more semicolon. */
  lemma HeaderPieces(blocks: seq<string>, n: nat)
    requires blocks != []
    ensures var pieces := [Decimal(n)] + SizePieces(blocks);
            Decimal(n) + ";" + Sizes(blocks) == Join(pieces, ";") + ";" && SplitAll(Join(pieces, ";")) == pieces
  {
    var pieces := [Decimal(n)] + SizePieces(blocks);
    SizesAreJoined(blocks);
    assert pieces[1..] == SizePieces(blocks);
    NoSemicolon(n);
    PiecesHaveNoSemicolon(blocks);
    SplitAllOfJoin(pieces);
  }

  /** The data starts with `first`, and the rest follows. */
  lemma DataStep(body: string, pointer: nat, first: string, rest: string)
    requires pointer + |first + rest| <= |body| && body[pointer..pointer + |first + rest|] == first + rest
    ensures var next := pointer + |first|;
            Slice(body, pointer, next) == first && body[next..next + |rest|] == rest
  {
    var all := body[pointer..pointer + |first + rest|];
    assert all[..|first|] == first && all[|first|..] == rest;
  }

  lemma CutOne(body: string, piece: string, pieces: seq<string>, pointer: nat, n: nat)
    requires Number(piece) == Some(n)
    ensures CutBlocks(body, [piece] + pieces, pointer)
            == Behind([Slice(body, pointer, pointer + n)], CutBlocks(body, pieces, pointer + n))
  {
    assert ([piece] + pieces)[1..] == pieces;
  }

  lemma {:induction false} CutGivesBlocks(body: string, blocks: seq<string>, pointer: nat)
    requires pointer + |Concat(blocks)| <= |body| && body[pointer..pointer + |Concat(blocks)|] == Concat(blocks)
    ensures CutBlocks(body, SizePieces(blocks), pointer) == Blocks(blocks)
    decreases blocks
  {
    if blocks == [] {
    } else {
      var first, rest := blocks[0], blocks[1..];
      DataStep(body, pointer, first, Concat(rest));
      CutGivesBlocks(body, rest, pointer + |first|);
      OneMoreBlock(body, first, rest, pointer);
      assert [first] + rest == blocks;
    }
  }

  lemma OneMoreBlock(body: string, first: string, rest: seq<string>, pointer: nat)
    requires Slice(body, pointer, pointer + |first|) == first
    requires CutBlocks(body, SizePieces(rest), pointer + |first|) == Blocks(rest)
    ensures CutBlocks(body, SizePieces([first] + rest), pointer) == Blocks([first] + rest)
  {
    var n := |first|;
    NoSemicolon(n);
    assert ([first] + rest)[1..] == rest;
    assert SizePieces([first] + rest) == [Decimal(n)] + SizePieces(rest);
    CutOne(body, Decimal(n), SizePieces(rest), pointer, n);
  }

  /** What the decoder does with a text that starts with a number and the header of that length. */
  lemma DecodeText(body: string, digits: string, rest: string, n: nat, pieces: seq<string>)
    requires body == digits + ";" + rest && ';' !in digits
    requires 1 <= n <= |body| && SplitAll(body[..n - 1]) == pieces
    requires pieces != [] && pieces[0] == digits && Number(digits) == Some(n)
    ensures Decode(body) == if |digits| < 100 then CutBlocks(body, pieces[1..], n) else FormatError
  {
    InfoLengthOf(digits, rest);
    SliceIs(body, 0, n - 1);
    if |digits| < 100 {
      DecodeSizes(body, n, pieces);
    }
  }

  lemma DecodeSizes(body: string, n: nat, pieces: seq<string>)
    requires InfoLength(body) == Some(n) && SplitAll(Slice(body, 0, n - 1)) == pieces
    requires pieces != [] && Number(pieces[0]) == Some(n)
    ensures Decode(body) == CutBlocks(body, pieces[1..], n)
  {
  }

  lemma InfoLengthOf(digits: string, rest: string)
    requires ';' !in digits
    ensures InfoLength(digits + ";" + rest) == if |digits| < 100 then Number(digits) else None
  {
    FindBehind(digits, ";", rest);
    assert (digits + ";" + rest)[..|digits|] == digits;
  }

  /** Where the parts of a response lie. */
  lemma EncodeParts(blocks: seq<string>, digits: string, n: nat, head: string)
    requires n == |SizeInfo(blocks)| && SizeInfo(blocks) == head + ";" == digits + ";" + Sizes(blocks)
    ensures var body := Encode(blocks);
            && body == digits + ";" + (Sizes(blocks) + Concat(blocks))
            && 1 <= n <= |body| && body[..n - 1] == head
            && n + |Concat(blocks)| == |body| && body[n..n + |Concat(blocks)|] == Concat(blocks)
  {
  }

  /** Decoding a response gives back exactly the blocks it was made from, even if they contain
      semicolons, exactly as long as the leading number has fewer than 100 digits. */
  lemma DecodeOfEncode(blocks: seq<string>)
    requires blocks != []
    ensures Decode(Encode(blocks)) == if |SizeInfo(blocks)| < Pow10(99) then Blocks(blocks) else FormatError
  {
    var n := |SizeInfo(blocks)|;
    HeaderStatesItsOwnLength(blocks);
    HeaderPieces(blocks, n);
    var pieces := [Decimal(n)] + SizePieces(blocks);
    EncodeParts(blocks, Decimal(n), n, Join(pieces, ";"));
    NoSemicolon(n);
    DecodeText(Encode(blocks), Decimal(n), Sizes(blocks) + Concat(blocks), n, pieces);
    FewDigits(n, 99);
    assert pieces[1..] == SizePieces(blocks);
    CutGivesBlocks(Encode(blocks), blocks, n);
  }

  lemma FewDigits(n: nat, k: nat)
    requires k > 0
    ensures |Decimal(n)| <= k <==> n < Pow10(k)
  {
    DigitCount(n);
    if |Decimal(n)| <= k {
      Pow10Monotone(|Decimal(n)|, k);
    } else {
      Pow10Monotone(k, |Decimal(n)| - 1);
      assert n >= 10;
    }
  }
}
