/**
 How evaluate_expression of src/m65_debugger.cpp prints the bytes it has read:
 one-, two- or four-byte little-endian values in hexadecimal, separated by
 single spaces.
 */
module Evaluation {
  import opened Text
  import opened Monitor
  import opened TargetMemory

  function LittleEndian(bytes: seq<Byte>): nat {
    if |bytes| == 0 then 0 else bytes[0] as nat + 256 * LittleEndian(bytes[1..])
  }

  /** The first byte counts least. */
  lemma LittleEndianIsSum(a: Byte, b: Byte, c: Byte, d: Byte)
    ensures LittleEndian([a]) == a
    ensures LittleEndian([a, b]) == a as int + 0x100 * b as int
    ensures LittleEndian([a, b, c, d]) == a as int + 0x100 * b as int + 0x1_0000 * c as int + 0x100_0000 * d as int
  {
    assert [a, b, c, d][1..] == [b, c, d] && [b, c, d][1..] == [c, d] && [c, d][1..] == [d] && [a, b][1..] == [b];
    assert LittleEndian([d]) == d && LittleEndian([c, d]) == c as int + 256 * d as int;
  }

  /** The digits of a value, its most significant byte first. */
  function Digits(bytes: seq<Byte>): string {
    if |bytes| == 0 then "" else Digits(bytes[1..]) + HexByte(bytes[0])
  }

  /** The bytes in pieces of the given size. */
  function Pieces(bytes: seq<Byte>, size: nat): (ps: seq<seq<Byte>>)
    requires size > 0
    ensures forall p <- ps :: |p| == size
  {
    if |bytes| < size then []
    else Pieces(bytes[..|bytes| - size], size) + [bytes[|bytes| - size..]]
  }

  function Flat(ps: seq<seq<Byte>>): seq<Byte> {
    if |ps| == 0 then [] else Flat(ps[..|ps| - 1]) + ps[|ps| - 1]
  }

  /** n times the size, without a multiplication. */
  predicate IsTimes(length: int, n: nat, size: nat)
    decreases n
  {
    if n == 0 then length == 0 else IsTimes(length - size, n - 1, size)
  }

  lemma {:induction false} TimesIsTimes(n: nat, size: nat)
    ensures IsTimes(n * size, n, size)
  {
    if n > 0 {
      TimesIsTimes(n - 1, size);
      assert n * size - size == (n - 1) * size;
    }
  }

  lemma {:induction false} TimesIsEnough(length: int, n: nat, size: nat)
    requires IsTimes(length, n, size)
    ensures length >= 0 && (n > 0 ==> length >= size)
    decreases n
  {
    if n > 0 {
      TimesIsEnough(length - size, n - 1, size);
    }
  }

  /** n pieces, and together they are the bytes. */
  lemma {:induction false} PiecesAreTheBytes(bytes: seq<Byte>, size: nat, n: nat)
    requires size > 0 && IsTimes(|bytes|, n, size)
    ensures |Pieces(bytes, size)| == n && Flat(Pieces(bytes, size)) == bytes
    decreases n
  {
    if n > 0 {
      TimesIsEnough(|bytes|, n, size);
      PiecesAreTheBytes(bytes[..|bytes| - size], size, n - 1);
      OneMorePiece(bytes, size);
      assert bytes == bytes[..|bytes| - size] + bytes[|bytes| - size..];
    }
  }

  lemma OneMorePiece(bytes: seq<Byte>, size: nat)
    requires 0 < size <= |bytes|
    ensures |Pieces(bytes, size)| == |Pieces(bytes[..|bytes| - size], size)| + 1
    ensures Flat(Pieces(bytes, size)) == Flat(Pieces(bytes[..|bytes| - size], size)) + bytes[|bytes| - size..]
  {
    var ps := Pieces(bytes, size);
    assert ps[..|ps| - 1] == Pieces(bytes[..|bytes| - size], size);
  }

  /** Every element followed by a space. */
  function Spaced(elements: seq<string>): string {
    if |elements| == 0 then "" else Spaced(elements[..|elements| - 1]) + elements[|elements| - 1] + " "
  }

  function Extend(words: seq<string>, s: string): (r: seq<string>)
    requires |words| > 0
    ensures |r| > 0
  {
    words[..|words| - 1] + [words[|words| - 1] + s]
  }

  /** The words of a text, by single spaces: two spaces in a row, or one at an
      end, make an empty word. */
  function Words(s: string): (words: seq<string>)
    ensures |words| > 0
  {
    if |s| == 0 then [""]
    else if s[|s| - 1] == ' ' then Words(s[..|s| - 1]) + [""]
    else Extend(Words(s[..|s| - 1]), [s[|s| - 1]])
  }

  lemma ExtendTwice(words: seq<string>, s: string, t: string)
    requires |words| > 0
    ensures Extend(Extend(words, s), t) == Extend(words, s + t)
  {
    assert words[|words| - 1] + s + t == words[|words| - 1] + (s + t);
  }

  lemma {:induction false} WordsOfAppend(s: string, word: string)
    requires ' ' !in word
    ensures Words(s + word) == Extend(Words(s), word)
    decreases |word|
  {
    if |word| == 0 {
      assert s + word == s;
      assert Words(s)[|Words(s)| - 1] + word == Words(s)[|Words(s)| - 1];
    } else {
      var init, c := word[..|word| - 1], word[|word| - 1];
      assert (s + word)[..|s + word| - 1] == s + init;
      WordsOfAppend(s, init);
      ExtendTwice(Words(s), init, [c]);
      assert word == init + [c];
    }
  }

  predicate NoSpaces(elements: seq<string>) {
    forall e <- elements :: ' ' !in e
  }

  lemma WordsOfOneMore(front: string, words: seq<string>, last: string)
    requires Words(front) == words + [""] && ' ' !in last
    ensures Words(front + last) == words + [last]
    ensures Words(front + last + " ") == words + [last] + [""]
  {
    WordsOfAppend(front, last);
    assert (words + [""])[..|words|] == words && "" + last == last;
    var t := front + last + " ";
    assert t[..|t| - 1] == front + last;
  }

  lemma {:induction false} WordsOfSpaced(elements: seq<string>)
    requires NoSpaces(elements)
    ensures Words(Spaced(elements)) == elements + [""]
  {
    if |elements| > 0 {
      var init, last := elements[..|elements| - 1], elements[|elements| - 1];
      WordsOfSpaced(init);
      assert elements == init + [last];
      WordsOfOneMore(Spaced(init), init, last);
    }
  }

  /** Without the last space, exactly the elements are left. */
  lemma WordsWithoutLastSpace(elements: seq<string>)
    requires |elements| > 0 && NoSpaces(elements)
    ensures |Spaced(elements)| > 0
    ensures Words(Spaced(elements)[..|Spaced(elements)| - 1]) == elements
  {
    var init, last := elements[..|elements| - 1], elements[|elements| - 1];
    WordsOfSpaced(init);
    assert elements == init + [last];
    WordsOfOneMore(Spaced(init), init, last);
    assert Spaced(elements)[..|Spaced(elements)| - 1] == Spaced(init) + last;
  }

  lemma ValueAppendByte(s: string, b: Byte)
    ensures Value(s + HexByte(b), 16) == Value(s, 16) * 256 + b
  {
    HexByteShape(b);
    var h := HexByte(b);
    var t := s + h;
    assert t[..|t| - 1] == s + h[..1];
    assert (s + h[..1])[..|s|] == s;
    assert h[..1][..0] == "";
  }

  /** A word that reads, in upper-case hexadecimal at full width, as the
      little-endian value of the bytes. */
  predicate Shows(word: string, bytes: seq<Byte>) {
    Value(word, 16) == LittleEndian(bytes) && |word| == 2 * |bytes| && AllDigits(word, 16)
  }

  lemma {:induction false} DigitsShow(bytes: seq<Byte>)
    ensures Shows(Digits(bytes), bytes)
  {
    if |bytes| > 0 {
      DigitsShow(bytes[1..]);
      ValueAppendByte(Digits(bytes[1..]), bytes[0]);
      HexByteShape(bytes[0]);
    }
  }

  lemma DigitsAreNoSpaces(bytes: seq<Byte>)
    ensures ' ' !in Digits(bytes)
  {
    DigitsShow(bytes);
    assert !IsDigit(' ', 16);
  }

  function Printed(ps: seq<seq<Byte>>): (r: seq<string>)
    ensures |r| == |ps| && forall i | 0 <= i < |r| :: r[i] == Digits(ps[i])
  {
    if |ps| == 0 then [] else Printed(ps[..|ps| - 1]) + [Digits(ps[|ps| - 1])]
  }

  lemma PrintedHasNoSpaces(ps: seq<seq<Byte>>)
    ensures NoSpaces(Printed(ps))
  {
    forall i | 0 <= i < |ps| ensures ' ' !in Printed(ps)[i] {
      DigitsAreNoSpaces(ps[i]);
    }
  }

  /** The text has as many words as there are pieces, and each shows its piece. */
  predicate Decodes(text: string, ps: seq<seq<Byte>>) {
    |Words(text)| == |ps| && forall i | 0 <= i < |ps| :: Shows(Words(text)[i], ps[i])
  }

  lemma SpacedDecodes(ps: seq<seq<Byte>>)
    requires |ps| > 0
    ensures |Spaced(Printed(ps))| > 0
    ensures Decodes(Spaced(Printed(ps))[..|Spaced(Printed(ps))| - 1], ps)
  {
    PrintedHasNoSpaces(ps);
    WordsWithoutLastSpace(Printed(ps));
    forall i | 0 <= i < |ps| ensures Shows(Printed(ps)[i], ps[i]) {
      DigitsShow(ps[i]);
    }
  }

  /** What the loops have printed when they reach index idx. */
  function PrintedTo(tmp: seq<Byte>, size: nat, idx: nat): string
    requires 0 < size && idx <= |tmp|
  {
    Spaced(Printed(Pieces(tmp[..idx], size)))
  }

  lemma OnePieceMore(tmp: seq<Byte>, size: nat, idx: nat)
    requires 0 < size && idx + size <= |tmp|
    ensures PrintedTo(tmp, size, idx + size) == PrintedTo(tmp, size, idx) + Digits(tmp[idx..idx + size]) + " "
  {
    var t := tmp[..idx + size];
    assert t[..idx] == tmp[..idx] && t[idx..] == tmp[idx..idx + size];
    var ps := Pieces(t, size);
    assert ps[..|ps| - 1] == Pieces(tmp[..idx], size);
    assert Printed(ps)[..|ps| - 1] == Printed(ps[..|ps| - 1]);
  }

  lemma DigitsOfOne(a: Byte)
    ensures Digits([a]) == HexByte(a)
  {
    assert [a][1..] == [];
  }

  lemma DigitsOfTwo(a: Byte, b: Byte)
    ensures Digits([a, b]) == HexByte(b) + HexByte(a)
  {
    assert [a, b][1..] == [b];
    DigitsOfOne(b);
  }

  lemma DigitsOfFour(a: Byte, b: Byte, c: Byte, d: Byte)
    ensures Digits([a, b, c, d]) == HexByte(d) + HexByte(c) + HexByte(b) + HexByte(a)
  {
    assert [a, b, c, d][1..] == [b, c, d] && [b, c, d][1..] == [c, d];
    DigitsOfTwo(c, d);
  }

  lemma PrintedToDecodes(tmp: seq<Byte>, size: nat)
    requires 0 < size && |Pieces(tmp, size)| > 0
    ensures var text := PrintedTo(tmp, size, |tmp|);
      |text| > 0 && Decodes(text[..|text| - 1], Pieces(tmp, size))
  {
    assert tmp[..|tmp|] == tmp;
    SpacedDecodes(Pieces(tmp, size));
  }

  /* The three formats, in one place each */

  method FormatOne(a: Byte, ghost piece: seq<Byte>) returns (word: string)
    requires |piece| == 1 && piece[0] == a
    ensures word == Digits(piece)
  {
    DigitsOfOne(a);
    assert piece == [a];
    return HexByte(a);
  }

  method FormatTwo(b: Byte, a: Byte, ghost piece: seq<Byte>) returns (word: string)
    requires |piece| == 2 && piece[0] == a && piece[1] == b
    ensures word == Digits(piece)
  {
    DigitsOfTwo(a, b);
    assert piece == [a, b];
    return HexByte(b) + HexByte(a);
  }

  method FormatFour(d: Byte, c: Byte, b: Byte, a: Byte, ghost piece: seq<Byte>) returns (word: string)
    requires |piece| == 4 && piece[0] == a && piece[1] == b && piece[2] == c && piece[3] == d
    ensures word == Digits(piece)
  {
    DigitsOfFour(a, b, c, d);
    assert piece == [a, b, c, d];
    return HexByte(d) + HexByte(c) + HexByte(b) + HexByte(a);
  }

  method FormatBytes(tmp: seq<Byte>) returns (text: string)
    ensures text == PrintedTo(tmp, 1, |tmp|)
  {
    text := "";
    for idx := 0 to |tmp|
      invariant text == PrintedTo(tmp, 1, idx)
    {
      var word := FormatOne(tmp[idx], tmp[idx..idx + 1]);
      text := text + word + " ";
      OnePieceMore(tmp, 1, idx);
    }
  }

  method FormatWords(tmp: seq<Byte>, numElements: nat) returns (text: string)
    requires |tmp| == numElements + numElements
    ensures text == PrintedTo(tmp, 2, |tmp|)
  {
    text := "";
    var idx := 0;
    ghost var k := 0;
    while idx < numElements + numElements
      invariant k <= numElements && idx == k + k
      invariant text == PrintedTo(tmp, 2, idx)
    {
      assert k + 1 <= numElements;
      var word := FormatTwo(tmp[idx + 1], tmp[idx], tmp[idx..idx + 2]);
      text := text + word + " ";
      OnePieceMore(tmp, 2, idx);
      idx := idx + 2;
      k := k + 1;
    }
    assert idx == |tmp|;
  }

  method FormatQuads(tmp: seq<Byte>, numElements: nat) returns (text: string)
    requires |tmp| == numElements + numElements + numElements + numElements
    ensures text == PrintedTo(tmp, 4, |tmp|)
  {
    text := "";
    var idx := 0;
    ghost var k := 0;
    while idx < numElements + numElements + numElements + numElements
      invariant k <= numElements && idx == k + k + k + k
      invariant text == PrintedTo(tmp, 4, idx)
    {
      assert k + 1 <= numElements;
      var word := FormatFour(tmp[idx + 3], tmp[idx + 2], tmp[idx + 1], tmp[idx], tmp[idx..idx + 4]);
      text := text + word + " ";
      OnePieceMore(tmp, 4, idx);
      idx := idx + 4;
      k := k + 1;
    }
    assert idx == |tmp|;
  }

  /** The result text. The last space is taken off without a look whether there
      is one, so the source needs at least one element. */
  method Format(tmp: seq<Byte>, typeSize: nat, numElements: nat) returns (text: string)
    requires typeSize in {1, 2, 4} && numElements > 0 && |tmp| == numElements * typeSize
    ensures Decodes(text, Pieces(tmp, typeSize))
    ensures |Words(text)| == numElements && Flat(Pieces(tmp, typeSize)) == tmp
  {
    if typeSize == 1 {
      text := FormatBytes(tmp);
    } else if typeSize == 2 {
      text := FormatWords(tmp, numElements);
    } else {
      text := FormatQuads(tmp, numElements);
    }
    TimesIsTimes(numElements, typeSize);
    PiecesAreTheBytes(tmp, typeSize, numElements);
    PrintedToDecodes(tmp, typeSize);
    text := text[..|text| - 1];
  }
}
