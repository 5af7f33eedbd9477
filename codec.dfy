/**
 * The 5-bit letter code of the search register: letter c occupies the five bits
 * `format(ord(c) - ord('a'), '05b')`, letter i of the word at bits 5*i .. 5*i+4, and
 * `_bits_to_word` reads such a bit string back into a word five bits at a time (the program
 * defines it but never calls it).
 */
module LetterCodec {
  import opened Words

  /** Bits per letter: the register has 5 letters * 5 bits = 25 qubits. */
  const LETTER_BITS: nat := 5

  function Pow2(k: nat): (p: nat)
    ensures p >= 1
  {
    if k == 0 then 1 else 2 * Pow2(k - 1)
  }

  lemma {:induction false} Pow2Monotone(j: nat, k: nat)
    requires j <= k
    ensures Pow2(j) <= Pow2(k)
    decreases k
  {
    if j < k {
      Pow2Monotone(j, k - 1);
    }
  }

  /** A string made only of the digits '0' and '1'. */
  predicate IsBinary(s: string) {
    forall j :: 0 <= j < |s| ==> s[j] == '0' || s[j] == '1'
  }

  /** The number a string of binary digits denotes, most significant digit first. */
  function BinaryValue(s: string): (v: nat)
    requires IsBinary(s)
    ensures v < Pow2(|s|)
  {
    if s == [] then 0
    else 2 * BinaryValue(s[..|s| - 1]) + (if s[|s| - 1] == '1' then 1 else 0)
  }

  /** `format(n, '0kb')` for n < 2^k: the k-digit binary numeral of n, padded with leading zeros. */
  function Bin(n: nat, k: nat): (s: string)
    ensures |s| == k && IsBinary(s)
  {
    if k == 0 then "" else Bin(n / 2, k - 1) + [if n % 2 == 0 then '0' else '1']
  }

  /** Reading the numeral of a number below 2^k back gives the number. */
  lemma {:induction false} BinValue(n: nat, k: nat)
    requires n < Pow2(k)
    ensures BinaryValue(Bin(n, k)) == n
    decreases k
  {
    if k > 0 {
      var s := Bin(n, k);
      assert s[..k - 1] == Bin(n / 2, k - 1);
      BinValue(n / 2, k - 1);
    }
  }

  /** Writing a numeral's value back in as many digits gives the numeral itself. */
  lemma {:induction false} BinOfValue(s: string)
    requires IsBinary(s)
    ensures Bin(BinaryValue(s), |s|) == s
    decreases |s|
  {
    if s != [] {
      var init := s[..|s| - 1];
      BinOfValue(init);
      assert s == init + [s[|s| - 1]];
    }
  }

  /** The letters the 5-bit code can carry: ord(c) - ord('a') is one of 0 .. 31. */
  predicate Encodable(c: char) {
    'a' <= c && c as int - 'a' as int < Pow2(LETTER_BITS)
  }

  /** `format(ord(c) - ord('a'), '05b')`. */
  function LetterBits(c: char): (s: string)
    requires Encodable(c)
    ensures |s| == LETTER_BITS && IsBinary(s)
  {
    Bin(c as int - 'a' as int, LETTER_BITS)
  }

  /** The oracle's bit pattern for a whole word: the letters' codes one after another. */
  function EncodeWord(w: string): (bits: string)
    requires forall j :: 0 <= j < |w| ==> Encodable(w[j])
    ensures |bits| == LETTER_BITS * |w| && IsBinary(bits)
  {
    if w == [] then "" else LetterBits(w[0]) + EncodeWord(w[1..])
  }

  /** Bit j of letter i sits at position i*5 + j of the register. */
  lemma {:induction false} EncodeLayout(w: string, i: nat, j: nat)
    requires forall k :: 0 <= k < |w| ==> Encodable(w[k])
    requires i < |w| && j < LETTER_BITS
    ensures EncodeWord(w)[LETTER_BITS * i + j] == LetterBits(w[i])[j]
    decreases i
  {
    if i > 0 {
      EncodeLayout(w[1..], i - 1, j);
      assert LETTER_BITS * i + j == LETTER_BITS + (LETTER_BITS * (i - 1) + j);
    }
  }

  /**
   * `int(s, 2)`: the value of a binary numeral, or None where Python raises ValueError
   * (an empty string or a character other than '0' and '1').
   */
  function ParseBinary(s: string): (r: Option<nat>)
    ensures r.Some? <==> s != [] && IsBinary(s)
    ensures r.Some? ==> r.value < Pow2(|s|) && Bin(r.value, |s|) == s
  {
    if s != [] && IsBinary(s) then
      BinOfValue(s);
      Some(BinaryValue(s))
    else None
  }

  /** The letter `chr(v + ord('a'))` decoded from a chunk of at most five bits. */
  function Letter(v: nat): (c: char)
    requires v < Pow2(LETTER_BITS)
    ensures Encodable(c) && c as int - 'a' as int == v
  {
    (v + 'a' as int) as char
  }

  /** `prefix + rest` carried through a decoding that may have failed. */
  function Prepend(prefix: string, r: Option<string>): Option<string> {
    match r
    case None => None
    case Some(rest) => Some(prefix + rest)
  }

  /** The length of the next chunk: `bits[i:i+5]` stops at the end of the string. */
  function ChunkLength(bits: string): (n: nat)
    ensures n <= |bits| && n <= LETTER_BITS
    ensures bits != [] ==> n > 0
    ensures Pow2(n) <= Pow2(LETTER_BITS)
  {
    var n := if |bits| < LETTER_BITS then |bits| else LETTER_BITS;
    Pow2Monotone(n, LETTER_BITS);
    n
  }

  /**
   * `_bits_to_word`: read consecutive chunks of five bits (the last may be shorter) and turn
   * each into a letter; None where the conversion of some chunk raises.
   */
  function DecodeBits(bits: string): Option<string>
    decreases |bits|
  {
    if bits == [] then Some("")
    else
      var n := ChunkLength(bits);
      match ParseBinary(bits[..n])
      case None => None
      case Some(v) => Prepend([Letter(v)], DecodeBits(bits[n..]))
  }

  /** What is left of the bit string from position i on (nothing once i runs past the end). */
  function Suffix(bits: string, i: nat): (s: string)
    ensures |s| <= |bits|
  {
    if i < |bits| then bits[i..] else []
  }

  /** One iteration of the decoding: the first chunk becomes a letter, or the decoding fails. */
  lemma DecodeChunk(s: string)
    requires s != []
    ensures ParseBinary(s[..ChunkLength(s)]).None? ==> DecodeBits(s) == None
    ensures ParseBinary(s[..ChunkLength(s)]).Some? ==>
      var v := ParseBinary(s[..ChunkLength(s)]).value;
      DecodeBits(s) == Prepend([Letter(v)], DecodeBits(s[ChunkLength(s)..]))
  {
  }

  lemma PrependTwice(a: string, b: string, r: Option<string>)
    ensures Prepend(a, Prepend(b, r)) == Prepend(a + b, r)
  {
    if r.Some? {
      assert a + (b + r.value) == (a + b) + r.value;
    }
  }

  /** The decoding loop, five bits per iteration, accumulating the word one letter at a time. */
  method BitsToWord(bits: string) returns (word: Option<string>)
    ensures word == DecodeBits(bits)
  {
    var acc := "";
    var i := 0;
    assert Suffix(bits, i) == bits;
    assert DecodeBits(bits) == Prepend(acc, DecodeBits(bits)) by {
      if DecodeBits(bits).Some? {
        assert acc + DecodeBits(bits).value == DecodeBits(bits).value;
      }
    }
    while i < |bits|
      invariant DecodeBits(bits) == Prepend(acc, DecodeBits(Suffix(bits, i)))
      decreases |bits| - i
    {
      var end := if i + LETTER_BITS <= |bits| then i + LETTER_BITS else |bits|;
      var letterBits := bits[i..end];
      ghost var rest := bits[i..];
      assert Suffix(bits, i) == rest;
      assert letterBits == rest[..ChunkLength(rest)];
      assert Suffix(bits, i + LETTER_BITS) == rest[ChunkLength(rest)..];
      DecodeChunk(rest);
      var value := ParseBinary(letterBits);
      if value.None? {
        return None;
      }
      Pow2Monotone(|letterBits|, LETTER_BITS);
      var letter := Letter(value.value);
      PrependTwice(acc, [letter], DecodeBits(Suffix(bits, i + LETTER_BITS)));
      acc := acc + [letter];
      i := i + LETTER_BITS;
    }
    assert acc + "" == acc;
    return Some(acc);
  }

  /** Decoding fails exactly when the string holds a character other than '0' and '1'. */
  lemma {:induction false} DecodeFailsOnlyOnNonBinary(bits: string)
    ensures DecodeBits(bits).None? <==> !IsBinary(bits)
    decreases |bits|
  {
    if bits != [] {
      var n := ChunkLength(bits);
      DecodeFailsOnlyOnNonBinary(bits[n..]);
      assert bits == bits[..n] + bits[n..];
      if !IsBinary(bits) {
        var j :| 0 <= j < |bits| && bits[j] != '0' && bits[j] != '1';
        if j >= n {
          assert bits[n..][j - n] == bits[j];
        }
      }
    }
  }

  /** Every five bits (and a shorter tail) yield one letter. */
  lemma {:induction false} DecodeLength(bits: string)
    requires DecodeBits(bits).Some?
    ensures |DecodeBits(bits).value| == (|bits| + LETTER_BITS - 1) / LETTER_BITS
    decreases |bits|
  {
    if bits != [] {
      DecodeLength(bits[ChunkLength(bits)..]);
    }
  }

  /** The code of a letter, followed by anything, decodes to that letter first. */
  lemma DecodeLetter(c: char, rest: string)
    requires Encodable(c)
    ensures DecodeBits(LetterBits(c) + rest) == Prepend([c], DecodeBits(rest))
  {
    var s := LetterBits(c) + rest;
    var code := c as int - 'a' as int;
    assert s[..ChunkLength(s)] == LetterBits(c);
    assert s[ChunkLength(s)..] == rest;
    BinValue(code, LETTER_BITS);
    DecodeChunk(s);
  }

  /** Decoding the code of a word gives the word back. */
  lemma {:induction false} DecodeEncode(w: string)
    requires forall j :: 0 <= j < |w| ==> Encodable(w[j])
    ensures DecodeBits(EncodeWord(w)) == Some(w)
    decreases |w|
  {
    if w != [] {
      DecodeLetter(w[0], EncodeWord(w[1..]));
      DecodeEncode(w[1..]);
      assert w == [w[0]] + w[1..];
    }
  }

  /** Conversely, a binary string made of whole 5-bit chunks is the code of the word it decodes to. */
  lemma {:induction false} EncodeDecode(bits: string)
    requires IsBinary(bits) && |bits| % LETTER_BITS == 0
    ensures DecodeBits(bits).Some?
    ensures var w := DecodeBits(bits).value;
      (forall j :: 0 <= j < |w| ==> Encodable(w[j])) && EncodeWord(w) == bits
    decreases |bits|
  {
    DecodeFailsOnlyOnNonBinary(bits);
    if bits != [] {
      var chunk, rest := bits[..LETTER_BITS], bits[LETTER_BITS..];
      assert IsBinary(rest) by {
        forall j | 0 <= j < |rest| ensures rest[j] == '0' || rest[j] == '1' {
          assert rest[j] == bits[LETTER_BITS + j];
        }
      }
      EncodeDecode(rest);
      var v := ParseBinary(chunk).value;
      Pow2Monotone(LETTER_BITS, LETTER_BITS);
      var w := DecodeBits(bits).value;
      assert w == [Letter(v)] + DecodeBits(rest).value;
      assert w[1..] == DecodeBits(rest).value;
      assert LetterBits(w[0]) == chunk;
      assert bits == chunk + rest;
    }
  }
}
