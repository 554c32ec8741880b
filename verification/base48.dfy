/** The base-48 short-hash encoding of `api/store.js`: a long-division loop that
    turns a non-negative integer into digits of a 48-symbol alphabet and keeps at
    most `maxLength` of them, the least significant ones. */
module Base48 {
  import opened Wrappers

  /** The symbols for digits 0..47, in order. The literal is split into four
      pieces only so that the verifier can index it; `AlphabetIsSourceConstant` shows the
      pieces spell the constant of the source. */
  const Alphabet: string := "2456789bcdfg" + "hjkmnpqrstvw" + "xyzBCDFGHJKL" + "MNPQRSTVWXYZ"

  /** The radix, taken from the length of the alphabet as the source does. */
  const Base: nat := 48

  type Digit = d: nat | d < Base

  /** Characters left out of the alphabet: vowels of both cases (against words
      forming in a hash) and `l 0 1 3` (against transcription mistakes). */
  predicate Excluded(c: char) {
    c in "aeiouAEIOUl013"
  }

  /** The four pieces spell the alphabet constant of the source, 48 symbols long. */
  lemma AlphabetIsSourceConstant()
    ensures Alphabet == "2456789bcdfghjkmnpqrstvwxyzBCDFGHJKLMNPQRSTVWXYZ"
    ensures |Alphabet| == Base
  {
  }

  /** An order on characters in which the alphabet is strictly increasing:
      digits, then lower case, then upper case. */
  function Rank(c: char): int {
    if 'A' <= c <= 'Z' then c as int + 0x100 else c as int
  }

  lemma AlphabetAscends()
    ensures forall i :: 0 <= i < |Alphabet| - 1 ==> Rank(Alphabet[i]) < Rank(Alphabet[i + 1])
  {
  }

  lemma {:induction false} AscendingApart(s: string, i: nat, j: nat)
    requires forall k :: 0 <= k < |s| - 1 ==> Rank(s[k]) < Rank(s[k + 1])
    requires i < j < |s|
    ensures Rank(s[i]) < Rank(s[j])
    decreases j - i
  {
    if i + 1 < j {
      AscendingApart(s, i + 1, j);
    }
  }

  /** No symbol occurs twice, so every symbol stands for one digit. */
  lemma AlphabetDistinct()
    ensures forall i, j :: 0 <= i < j < |Alphabet| ==> Alphabet[i] != Alphabet[j]
  {
    AlphabetAscends();
    forall i, j | 0 <= i < j < |Alphabet|
      ensures Alphabet[i] != Alphabet[j]
    {
      AscendingApart(Alphabet, i, j);
    }
  }

  /** No vowel and none of `l 0 1 3` is a symbol. */
  lemma AlphabetAvoidsExcluded()
    ensures forall i :: 0 <= i < |Alphabet| ==> !Excluded(Alphabet[i])
  {
    forall i | 0 <= i < |Alphabet|
      ensures !Excluded(Alphabet[i])
    {
      if i < 6 {
      } else if i < 12 {
      } else if i < 18 {
      } else if i < 24 {
      } else if i < 30 {
      } else if i < 36 {
      } else if i < 42 {
      } else {
      }
    }
  }

  function Pow48(k: nat): (p: nat)
    ensures p >= 1
  {
    if k == 0 then 1 else Base * Pow48(k - 1)
  }

  function Max(a: int, b: int): int { if a < b then b else a }

  function Min(a: int, b: int): int { if a < b then a else b }

  // ---------------------------------------------------------------------------
  // Positional notation: the reference definition the encoder is checked against
  // ---------------------------------------------------------------------------

  /** The canonical base-48 digits of `n`, most significant first: at least one
      digit, and no leading zero digit unless `n` is 0. */
  function Digits(n: nat): (ds: seq<Digit>)
    ensures |ds| >= 1
    ensures |ds| > 1 ==> ds[0] != 0
    decreases n
  {
    if n < Base then [n] else Digits(n / Base) + [n % Base]
  }

  /** The number a digit sequence (most significant first) denotes. */
  function Value(ds: seq<Digit>): nat
    decreases |ds|
  {
    if |ds| == 0 then 0 else Value(ds[..|ds| - 1]) * Base + ds[|ds| - 1]
  }

  /** The characters for a digit sequence. */
  function Render(ds: seq<Digit>): (s: string)
    ensures |s| == |ds|
    ensures forall i :: 0 <= i < |ds| ==> s[i] == Alphabet[ds[i]]
  {
    seq(|ds|, i requires 0 <= i < |ds| => Alphabet[ds[i]])
  }

  // ---------------------------------------------------------------------------
  // Decoding: the inverse the encoding is checked against
  // ---------------------------------------------------------------------------

  /** Position of the first occurrence of `c` in `s`. Its meaning is stated
      by `IndexInFinds`, kept apart so that unfolding a lookup stays cheap. */
  function IndexIn(s: string, c: char): (r: Option<nat>)
    ensures r.Some? ==> r.value < |s|
    decreases |s|
  {
    if |s| == 0 then None
    else if s[0] == c then Some(0)
    else
      match IndexIn(s[1..], c)
      case None => None
      case Some(i) => Some(i + 1)
  }

  lemma {:induction false} IndexInFinds(s: string, c: char)
    ensures IndexIn(s, c).Some? ==> s[IndexIn(s, c).value] == c
    ensures IndexIn(s, c).Some? ==> forall j :: 0 <= j < IndexIn(s, c).value ==> s[j] != c
    ensures IndexIn(s, c).None? <==> c !in s
    decreases |s|
  {
    if |s| > 0 && s[0] != c {
      IndexInFinds(s[1..], c);
      assert forall j :: 1 <= j < |s| ==> s[j] == s[1..][j - 1];
      assert c in s ==> c in s[1..];
    }
  }

  /** The digit a character stands for, if it belongs to the alphabet. */
  function DigitOf(c: char): Option<Digit> {
    match IndexIn(Alphabet, c)
    case None => None
    case Some(i) => Some(i)
  }

  /** `DigitOf` inverts the alphabet, and fails exactly off the alphabet. */
  lemma DigitOfSymbol(c: char)
    ensures DigitOf(c).Some? <==> c in Alphabet
    ensures DigitOf(c).Some? ==> Alphabet[DigitOf(c).value] == c
  {
    IndexInFinds(Alphabet, c);
  }

  /** Reads a string back as a base-48 number (most significant symbol first);
      fails on any character outside the alphabet. */
  function Decode(s: string): (r: Option<nat>)
    ensures r.Some? <==> forall i :: 0 <= i < |s| ==> DigitOf(s[i]).Some?
    decreases |s|
  {
    if |s| == 0 then Some(0)
    else
      match (Decode(s[..|s| - 1]), DigitOf(s[|s| - 1]))
      case (Some(v), Some(d)) => Some(v * Base + d)
      case _ => None
  }

  lemma DigitOfAlphabet(d: Digit)
    ensures DigitOf(Alphabet[d]) == Some(d)
  {
    AlphabetDistinct();
    IndexInFinds(Alphabet, Alphabet[d]);
  }

  lemma RenderInit(ds: seq<Digit>)
    requires |ds| > 0
    ensures Render(ds)[..|ds| - 1] == Render(ds[..|ds| - 1])
    ensures Render(ds)[|ds| - 1] == Alphabet[ds[|ds| - 1]]
  {
  }

  lemma {:induction false} DecodeRender(ds: seq<Digit>)
    ensures Decode(Render(ds)) == Some(Value(ds))
    decreases |ds|
  {
    if |ds| > 0 {
      var init, last := ds[..|ds| - 1], ds[|ds| - 1];
      RenderInit(ds);
      DecodeRender(init);
      DigitOfAlphabet(last);
    }
  }

  // ---------------------------------------------------------------------------
  // The loop's view: low digits and the quotient left after dropping them
  // ---------------------------------------------------------------------------

  /** `n` with its `k` least significant base-48 digits divided away. */
  function Shift(n: nat, k: nat): nat
    decreases k
  {
    if k == 0 then n else Shift(n / Base, k - 1)
  }

  /** The `k` least significant base-48 digits of `n`, most significant first,
      with leading zero digits when `n` has fewer than `k` digits. */
  function Low(n: nat, k: nat): (ds: seq<Digit>)
    ensures |ds| == k
    decreases k
  {
    if k == 0 then [] else Low(n / Base, k - 1) + [n % Base]
  }

  lemma {:induction false} ShiftStep(n: nat, k: nat)
    ensures Shift(n, k + 1) == Shift(n, k) / Base
    decreases k
  {
    if k > 0 {
      ShiftStep(n / Base, k - 1);
    }
  }

  lemma {:induction false} LowStep(n: nat, k: nat)
    ensures Low(n, k + 1) == [Shift(n, k) % Base] + Low(n, k)
    decreases k
  {
    if k > 0 {
      LowStep(n / Base, k - 1);
    }
  }

  lemma RenderPrepend(d: Digit, ds: seq<Digit>)
    ensures Render([d] + ds) == [Alphabet[d]] + Render(ds)
  {
    assert Render([d] + ds) == [Alphabet[d]] + Render(ds);
  }

  /** Some digit remains to be divided away exactly while `48^k <= n`. */
  lemma {:induction false} ShiftPositive(n: nat, k: nat)
    ensures Shift(n, k) > 0 <==> Pow48(k) <= n
    decreases k
  {
    if k > 0 {
      ShiftPositive(n / Base, k - 1);
      assert Pow48(k) == Base * Pow48(k - 1);
    }
  }

  /** The canonical representation has more than `k` digits exactly when `48^k <= n`. */
  lemma {:induction false} DigitsCount(n: nat, k: nat)
    requires k >= 1
    ensures k < |Digits(n)| <==> Pow48(k) <= n
    decreases n
  {
    assert Pow48(k) == Base * Pow48(k - 1);
    if n >= Base {
      if k > 1 {
        DigitsCount(n / Base, k - 1);
      }
    } else {
      assert Pow48(k - 1) >= 1;
    }
  }

  lemma DigitsBound(n: nat)
    ensures n < Pow48(|Digits(n)|)
    ensures |Digits(n)| > 1 ==> Pow48(|Digits(n)| - 1) <= n
  {
    DigitsCount(n, |Digits(n)|);
    if |Digits(n)| > 1 {
      DigitsCount(n, |Digits(n)| - 1);
    }
  }

  lemma {:induction false} Pow48Monotone(a: nat, b: nat)
    requires a <= b
    ensures Pow48(a) <= Pow48(b)
    decreases b
  {
    if a < b {
      Pow48Monotone(a, b - 1);
    }
  }

  lemma MulAtLeast(x: int, m: nat)
    requires x >= 1
    ensures x * m >= m
  {
  }

  /** The remainder is the unique `b` with `n == a * m + b` and `0 <= b < m`. */
  lemma ModUnique(n: nat, m: nat, a: nat, b: nat)
    requires m > 0 && n == a * m + b && b < m
    ensures n % m == b && n / m == a
  {
    var q, r := n / m, n % m;
    assert (q - a) * m == b - r;
    if q > a {
      MulAtLeast(q - a, m);
    } else if q < a {
      MulAtLeast(a - q, m);
    }
  }

  lemma ModSmall(n: nat, m: nat)
    requires n < m
    ensures n % m == n
  {
    ModUnique(n, m, 0, n);
  }

  /** Dropping the lowest digit, then taking `k - 1` digits, is taking `k` digits. */
  lemma DivModNested(n: nat, p: nat)
    requires p > 0
    ensures n % (Base * p) == ((n / Base) % p) * Base + n % Base
  {
    var q, r0 := n / Base, n % Base;
    var hi, lo := q / p, q % p;
    assert n == Base * q + r0;
    assert q == hi * p + lo;
    assert n == hi * (Base * p) + (lo * Base + r0);
    assert lo * Base + r0 < Base * p;
    ModUnique(n, Base * p, hi, lo * Base + r0);
  }

  lemma {:induction false} LowValue(n: nat, k: nat)
    ensures Value(Low(n, k)) == n % Pow48(k)
    decreases k
  {
    if k == 0 {
      ModUnique(n, 1, n, 0);
    } else {
      var low := Low(n, k);
      assert low[..|low| - 1] == Low(n / Base, k - 1);
      LowValue(n / Base, k - 1);
      DivModNested(n, Pow48(k - 1));
    }
  }

  /** The `k` low digits, for `k` up to the length of the canonical
      representation, are its last `k` digits. */
  lemma {:induction false} LowIsSuffix(n: nat, k: nat)
    requires k <= |Digits(n)|
    ensures Low(n, k) == Digits(n)[|Digits(n)| - k..]
    decreases n
  {
    if k > 0 {
      if n < Base {
        assert Low(n / Base, 0) == [];
      } else {
        LowIsSuffix(n / Base, k - 1);
        var ds := Digits(n / Base);
        assert Digits(n)[|Digits(n)| - k..] == ds[|ds| - (k - 1)..] + [n % Base];
      }
    }
  }

  // ---------------------------------------------------------------------------
  // The encoder
  // ---------------------------------------------------------------------------

  /** Functional statement of `base48encode`: the last `Min(|Digits(n)|,
      Max(1, maxLength))` digits of the canonical representation. */
  function Encode(n: nat, maxLength: int): (r: string)
    ensures 1 <= |r| <= Max(1, maxLength)
  {
    var ds := Digits(n);
    var width := Min(|ds|, Max(1, maxLength));
    Render(ds[|ds| - width..])
  }

  /** One turn of the division loop: prepending the next remainder's symbol
      extends the low digits by one, and the quotient drops one more digit. */
  lemma PrependNextDigit(n: nat, k: nat)
    ensures Render(Low(n, k + 1)) == [Alphabet[Shift(n, k) % Base]] + Render(Low(n, k))
    ensures Shift(n, k + 1) == Shift(n, k) / Base
  {
    ShiftStep(n, k);
    LowStep(n, k);
    RenderPrepend(Shift(n, k) % Base, Low(n, k));
  }

  /** Where the loop stops: the quotient is spent or the output is full. */
  lemma LoopExit(n: nat, maxLength: int, k: nat)
    requires 1 <= k <= |Digits(n)| && k <= Max(1, maxLength)
    requires Shift(n, k) == 0 || k >= maxLength
    ensures Render(Low(n, k)) == Encode(n, maxLength)
  {
    ShiftPositive(n, k);
    DigitsCount(n, k);
    LowIsSuffix(n, k);
  }

  /** `base48encode` as written: a division loop that prepends one symbol per
      step and stops once the quotient is 0 or the output is `maxLength` long
      (the first step always runs). */
  method Base48Encode(n: nat, maxLength: int) returns (r: string)
    ensures r == Encode(n, maxLength)
  {
    var w := n / Base;
    r := [Alphabet[n % Base]];
    PrependNextDigit(n, 0);
    while w > 0 && |r| < maxLength
      invariant 1 <= |r| <= |Digits(n)|
      invariant |r| <= Max(1, maxLength)
      invariant w == Shift(n, |r|)
      invariant r == Render(Low(n, |r|))
      decreases w
    {
      ShiftPositive(n, |r|);
      DigitsCount(n, |r|);
      PrependNextDigit(n, |r|);
      r := [Alphabet[w % Base]] + r;
      w := w / Base;
    }
    LoopExit(n, maxLength, |r|);
  }

  // ---------------------------------------------------------------------------
  // Properties of the encoding
  // ---------------------------------------------------------------------------

  /** Every symbol of the hash is drawn from the alphabet. */
  lemma EncodeUsesAlphabet(n: nat, maxLength: int)
    ensures forall i :: 0 <= i < |Encode(n, maxLength)| ==> Encode(n, maxLength)[i] in Alphabet
  {
  }

  /** The hash is the rendering of the low `Min(|Digits(n)|, Max(1, maxLength))` digits. */
  lemma EncodeIsLow(n: nat, maxLength: int)
    ensures Encode(n, maxLength) == Render(Low(n, Min(|Digits(n)|, Max(1, maxLength))))
  {
    LowIsSuffix(n, Min(|Digits(n)|, Max(1, maxLength)));
  }

  /** Keeping every digit of a number shorter than the cap loses nothing. */
  lemma KeptDigitsValue(n: nat, cap: nat)
    requires cap >= 1
    ensures n % Pow48(Min(|Digits(n)|, cap)) == n % Pow48(cap)
  {
    var width := Min(|Digits(n)|, cap);
    if width < cap {
      DigitsBound(n);
      Pow48Monotone(width, cap);
      ModSmall(n, Pow48(width));
      ModSmall(n, Pow48(cap));
    }
  }

  /** Decoding the hash gives back `n` modulo `48^maxLength`: the encoder keeps
      the least significant digits. */
  lemma EncodeDecode(n: nat, maxLength: int)
    ensures Decode(Encode(n, maxLength)) == Some(n % Pow48(Max(1, maxLength)))
  {
    var width := Min(|Digits(n)|, Max(1, maxLength));
    EncodeIsLow(n, maxLength);
    DecodeRender(Low(n, width));
    LowValue(n, width);
    KeptDigitsValue(n, Max(1, maxLength));
  }

  /** The encoding is an exact round trip precisely for `n < 48^maxLength`. */
  lemma EncodeRoundTrip(n: nat, maxLength: int)
    ensures Decode(Encode(n, maxLength)) == Some(n) <==> n < Pow48(Max(1, maxLength))
  {
    EncodeDecode(n, maxLength);
    var p := Pow48(Max(1, maxLength));
    if n < p {
      ModSmall(n, p);
    }
  }

  /** Below `48^maxLength` nothing is cut: the hash is the full canonical
      representation, with no padding. */
  lemma EncodeUntruncated(n: nat, maxLength: int)
    requires n < Pow48(Max(1, maxLength))
    ensures Encode(n, maxLength) == Render(Digits(n))
  {
    var ds := Digits(n);
    var cap := Max(1, maxLength);
    if cap < |ds| {
      DigitsCount(n, cap);
    }
  }

  /** The hash reaches its full requested length exactly when `n` has at
      least that many base-48 digits. */
  lemma EncodeFullWidth(n: nat, maxLength: int)
    requires maxLength >= 1
    ensures |Encode(n, maxLength)| == maxLength <==> maxLength == 1 || Pow48(maxLength - 1) <= n
  {
    if maxLength > 1 {
      DigitsCount(n, maxLength - 1);
    }
  }

  /** Zero encodes as the zero symbol alone, whatever the length limit. */
  lemma EncodeZero(maxLength: int)
    ensures Encode(0, maxLength) == [Alphabet[0]]
    ensures Encode(0, maxLength) == "2"
  {
    AlphabetDistinct();
  }

  /** Two numbers below `48^maxLength` never share a hash. */
  lemma EncodeInjective(m: nat, n: nat, maxLength: int)
    requires m < Pow48(Max(1, maxLength)) && n < Pow48(Max(1, maxLength))
    requires Encode(m, maxLength) == Encode(n, maxLength)
    ensures m == n
  {
    EncodeRoundTrip(m, maxLength);
    EncodeRoundTrip(n, maxLength);
  }

  // ---------------------------------------------------------------------------
  // The other direction: every canonical string is the encoding of its value
  // ---------------------------------------------------------------------------

  /** A string the encoder can produce without truncation: symbols of the
      alphabet, and no leading zero symbol unless it is the single symbol. */
  predicate Canonical(s: string) {
    && |s| >= 1
    && (forall i :: 0 <= i < |s| ==> s[i] in Alphabet)
    && (|s| > 1 ==> s[0] != Alphabet[0])
  }

  lemma SymbolsHaveDigits(s: string)
    requires forall i :: 0 <= i < |s| ==> s[i] in Alphabet
    ensures forall i :: 0 <= i < |s| ==> DigitOf(s[i]).Some? && Alphabet[DigitOf(s[i]).value] == s[i]
  {
    forall i | 0 <= i < |s|
      ensures DigitOf(s[i]).Some? && Alphabet[DigitOf(s[i]).value] == s[i]
    {
      DigitOfSymbol(s[i]);
    }
  }

  /** The digits of a string of alphabet symbols. */
  function ToDigits(s: string): (ds: seq<Digit>)
    requires forall i :: 0 <= i < |s| ==> s[i] in Alphabet
    ensures Render(ds) == s
  {
    SymbolsHaveDigits(s);
    seq(|s|, i requires 0 <= i < |s| => DigitOf(s[i]).value)
  }

  lemma {:induction false} ValuePositive(ds: seq<Digit>)
    requires |ds| >= 1 && ds[0] != 0
    ensures Value(ds) > 0
    decreases |ds|
  {
    if |ds| > 1 {
      ValuePositive(ds[..|ds| - 1]);
    }
  }

  lemma {:induction false} DigitsOfValue(ds: seq<Digit>)
    requires |ds| >= 1
    requires |ds| > 1 ==> ds[0] != 0
    ensures Digits(Value(ds)) == ds
    decreases |ds|
  {
    var init := ds[..|ds| - 1];
    var last := ds[|ds| - 1];
    if |ds| == 1 {
      assert Value(ds) == last;
    } else {
      DigitsOfValue(init);
      ValuePositive(init);
      var v := Value(ds);
      assert v == Value(init) * Base + last;
      ModUnique(v, Base, Value(init), last);
      assert init + [last] == ds;
    }
  }

  /** Every canonical string no longer than the limit is the hash of the
      number it denotes. */
  lemma DecodeEncode(s: string, maxLength: int)
    requires Canonical(s) && |s| <= Max(1, maxLength)
    ensures Decode(s).Some?
    ensures Encode(Decode(s).value, maxLength) == s
  {
    var ds := ToDigits(s);
    AlphabetDistinct();
    if |ds| > 1 {
      assert ds[0] != 0;
    }
    DigitsOfValue(ds);
    DecodeRender(ds);
    var n := Value(ds);
    DigitsBound(n);
    Pow48Monotone(|ds|, Max(1, maxLength));
    EncodeUntruncated(n, maxLength);
  }
}
