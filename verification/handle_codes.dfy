/**
 Handles as 64-bit words and as text (server/registry.cc): `joggle` mixes the bits of a word and
 `unjoggle` undoes it; `base57` writes a word as eleven characters and `unbase57` reads them.

 A `uint64_t` is an integer below 2^64; sums, differences and products are taken modulo 2^64, shifts are
 division and multiplication by powers of two, and xor goes through the binary digits.
 */
module HandleCodes {
  import opened Wrappers
  import opened Utf8

  type word = w: int | 0 <= w < 0x1_0000_0000_0000_0000

  function Mod(x: int): word {
    x % 0x1_0000_0000_0000_0000
  }

  // Xor

  function Pow2(n: nat): nat {
    if n == 0 then 1 else 2 * Pow2(n - 1)
  }

  function XorDigits(a: nat, b: nat): nat
    decreases a + b
  {
    if a == 0 && b == 0 then 0
    else 2 * XorDigits(a / 2, b / 2) + if a % 2 == b % 2 then 0 else 1
  }

  lemma {:induction false} XorBelow(a: nat, b: nat, n: nat)
    requires a < Pow2(n) && b < Pow2(n)
    ensures XorDigits(a, b) < Pow2(n)
  {
    if n > 0 && (a != 0 || b != 0) {
      XorBelow(a / 2, b / 2, n - 1);
    }
  }

  lemma {:induction false} XorUndone(a: nat, b: nat)
    ensures XorDigits(XorDigits(a, b), b) == a
    decreases a + b
  {
    if a != 0 || b != 0 {
      XorUndone(a / 2, b / 2);
      var x := XorDigits(a, b);
      assert x / 2 == XorDigits(a / 2, b / 2);
      assert x % 2 == if a % 2 == b % 2 then 0 else 1;
    }
  }

  lemma {:induction false} Pow2Sum(m: nat, n: nat)
    ensures Pow2(m + n) == Pow2(m) * Pow2(n)
  {
    if m > 0 {
      Pow2Sum(m - 1, n);
    }
  }

  lemma Pow2Of64()
    ensures Pow2(64) == 0x1_0000_0000_0000_0000
  {
    assert Pow2(4) == 2 * Pow2(3) && Pow2(3) == 2 * Pow2(2) && Pow2(2) == 2 * Pow2(1) && Pow2(1) == 2 * Pow2(0);
    Pow2Sum(4, 4);
    Pow2Sum(8, 8);
    Pow2Sum(16, 16);
    Pow2Sum(32, 32);
  }

  function Xor(a: word, b: word): word {
    Pow2Of64();
    XorBelow(a, b, 64);
    XorDigits(a, b)
  }

  function BinaryDigit(x: nat, n: nat): nat {
    if n == 0 then x % 2 else BinaryDigit(x / 2, n - 1)
  }

  /** Xor digit by digit: the result has a one exactly where the two differ. */
  lemma {:induction false} XorAt(a: nat, b: nat, n: nat)
    ensures BinaryDigit(XorDigits(a, b), n) == if BinaryDigit(a, n) == BinaryDigit(b, n) then 0 else 1
    decreases n
  {
    var x := XorDigits(a, b);
    assert x / 2 == XorDigits(a / 2, b / 2) && x % 2 == if a % 2 == b % 2 then 0 else 1;
    if n > 0 {
      XorAt(a / 2, b / 2, n - 1);
    }
  }

  // Mixing

  /** `(v >> 19) | (v << 45)`: the two parts share no bit. */
  function RotateRight19(v: word): word {
    v / 0x8_0000 + v % 0x8_0000 * 0x2000_0000_0000
  }

  /** `(v << 19) | (v >> 45)`. */
  function RotateLeft19(v: word): word {
    v / 0x2000_0000_0000 + v % 0x2000_0000_0000 * 0x8_0000
  }

  /** The product with the golden ratio (times 2^64). */
  function Scatter(v: word): word {
    Mod(v * 11400714819323198485)
  }

  /** The product with the modular inverse of that factor. */
  function Gather(v: word): word {
    Mod(v * 17428512612931826493)
  }

  function Masked(realm: word, v: word): word {
    Xor(Mod(v + 1), realm)
  }

  function Unmasked(realm: word, v: word): word {
    Mod(Xor(v, realm) - 1)
  }

  function Mirrored(realm: word, v: word): word {
    Mod(realm - v)
  }

  function Joggled(realm: word, value: word): word {
    Mirrored(realm, RotateRight19(Scatter(Masked(realm, value))))
  }

  function Unjoggled(realm: word, value: word): word {
    Unmasked(realm, Gather(RotateLeft19(Mirrored(realm, value))))
  }

  /** The factor is 2^64 divided by the golden ratio, rounded down: its square and 2^64 times itself add up to 2^128. */
  lemma GoldenRatio(f: nat)
    requires f == Scatter(1)
    ensures var w := 0x1_0000_0000_0000_0000; f * f + f * w <= w * w < (f + 1) * (f + 1) + (f + 1) * w
    ensures Mod(f * Gather(1)) == 1
  {
  }

  /** Two handles: the mixing is this one, and no other. */
  lemma SampleHandles()
    ensures Joggled(0, 0) == 12717404730742591511 && Joggled(3, 4) == 2517557642733609100
  {
    SmallXors();
    MixedWord(1, 0, 11400714819323198485, 5729339342966960105);
    MixedWord(6, 3, 13064056694810536062, 15929186430975942519);
  }

  lemma SmallXors()
    ensures Masked(0, 0) == 1 && Masked(3, 4) == 6
  {
    assert XorDigits(1, 0) == 1;
    assert XorDigits(5, 3) == 2 * XorDigits(2, 1) && XorDigits(2, 1) == 2 * XorDigits(1, 0) + 1;
  }

  lemma MixedWord(v: word, carry: nat, scattered: word, rotated: word)
    requires v * 11400714819323198485 == scattered + carry * 0x1_0000_0000_0000_0000
    requires rotated == scattered / 0x8_0000 + scattered % 0x8_0000 * 0x2000_0000_0000
    ensures RotateRight19(Scatter(v)) == rotated
  {
    ModMultiple(scattered, carry);
    assert Scatter(v) == scattered;
  }

  lemma RotationUndone(v: word)
    ensures RotateLeft19(RotateRight19(v)) == v && RotateRight19(RotateLeft19(v)) == v
  {
    var h, l: int := v / 0x8_0000, v % 0x8_0000;
    var h', l': int := v / 0x2000_0000_0000, v % 0x2000_0000_0000;
    assert h < 0x2000_0000_0000 && h' < 0x8_0000;
    assert RotateRight19(v) / 0x2000_0000_0000 == l && RotateRight19(v) % 0x2000_0000_0000 == h;
    assert RotateLeft19(v) / 0x8_0000 == l' && RotateLeft19(v) % 0x8_0000 == h';
  }

  /** The two factors are inverse to each other modulo 2^64, so a product by one is undone by the other. */
  lemma ScatterUndone(v: word)
    ensures Gather(Scatter(v)) == v && Scatter(Gather(v)) == v
  {
    ProductUndone(v, 11400714819323198485, 17428512612931826493, 10771413168148108919);
    ProductUndone(v, 17428512612931826493, 11400714819323198485, 10771413168148108919);
  }

  lemma ProductUndone(v: word, a: int, b: int, k: int)
    requires a * b == k * 0x1_0000_0000_0000_0000 + 1
    ensures Mod(Mod(v * a) * b) == v
  {
    var q := v * a / 0x1_0000_0000_0000_0000;
    WordAndRest(v * a);
    Ring(v, a, b, k, q, 0x1_0000_0000_0000_0000, Mod(v * a));
    WordOf(Mod(v * a) * b, v, v * k - q * b);
  }

  lemma WordAndRest(x: int)
    ensures x == Mod(x) + x / 0x1_0000_0000_0000_0000 * 0x1_0000_0000_0000_0000
  {
  }

  lemma WordOf(x: int, v: word, n: int)
    requires x == v + n * 0x1_0000_0000_0000_0000
    ensures Mod(x) == v
  {
    ModMultiple(v, n);
  }

  lemma Ring(v: int, a: int, b: int, k: int, q: int, m: int, r: int)
    requires v * a == r + q * m && a * b == k * m + 1
    ensures r * b == v + (v * k - q * b) * m
  {
    assert v * a * b == v * (a * b);
    assert v * (k * m + 1) == v * k * m + v;
    assert (r + q * m) * b == r * b + q * b * m;
    assert (v * k - q * b) * m == v * k * m - q * b * m;
  }

  lemma MaskUndone(realm: word, v: word)
    ensures Unmasked(realm, Masked(realm, v)) == v && Masked(realm, Unmasked(realm, v)) == v
  {
    StepUndone(v);
    StepUndone(Xor(v, realm));
    XorUndone(Mod(v + 1), realm);
    XorUndone(v, realm);
    assert Xor(Mod(Mod(Xor(v, realm) - 1) + 1), realm) == v;
  }

  lemma StepUndone(v: word)
    ensures Mod(Mod(v + 1) - 1) == v && Mod(Mod(v - 1) + 1) == v
  {
  }

  lemma MirrorUndone(realm: word, v: word)
    ensures Mirrored(realm, Mirrored(realm, v)) == v
  {
  }

  /** `unjoggle` undoes `joggle` on every word. */
  lemma UnjoggleInverts(realm: word, v: word)
    ensures Unjoggled(realm, Joggled(realm, v)) == v
  {
    var x := Masked(realm, v);
    MirrorUndone(realm, RotateRight19(Scatter(x)));
    RotationUndone(Scatter(x));
    ScatterUndone(x);
    MaskUndone(realm, v);
  }

  /** And `joggle` undoes `unjoggle`: every word is the image of exactly one word. */
  lemma JoggleInverts(realm: word, v: word)
    ensures Joggled(realm, Unjoggled(realm, v)) == v
  {
    var y := RotateLeft19(Mirrored(realm, v));
    MaskUndone(realm, Gather(y));
    ScatterUndone(y);
    RotationUndone(Mirrored(realm, v));
    MirrorUndone(realm, v);
  }

  /** No two words share an image. */
  lemma JoggleIsInjective(realm: word, v: word, w: word)
    ensures Joggled(realm, v) == Joggled(realm, w) <==> v == w
  {
    UnjoggleInverts(realm, v);
    UnjoggleInverts(realm, w);
  }

  method Mix(realm: word, input: word) returns (r: word)
    ensures r == Joggled(realm, input)
  {
    var top: int, value: int := realm, input;
    value := Mod(value + 1);
    value := Xor(value, realm);
    value := Mod(value * 11400714819323198485);
    value := RotateRight19(value);
    return Mod(top - value);
  }

  method Unmix(realm: word, input: word) returns (r: word)
    ensures r == Unjoggled(realm, input)
  {
    var top: int, value: int := realm, input;
    value := Mod(top - value);
    value := RotateLeft19(value);
    value := Mod(value * 17428512612931826493);
    value := Xor(value, realm);
    return Mod(value - 1);
  }

  /** `joggle`: the word from which `unjoggle` gets the input back. */
  method Joggle(realm: word, input: word) returns (r: word)
    ensures r == Joggled(realm, input) && Unjoggled(realm, r) == input
  {
    r := Mix(realm, input);
    UnjoggleInverts(realm, input);
  }

  /** `unjoggle`: the word that `joggle` makes the input of. */
  method Unjoggle(realm: word, input: word) returns (r: word)
    ensures r == Unjoggled(realm, input) && Joggled(realm, r) == input
  {
    r := Unmix(realm, input);
    JoggleInverts(realm, input);
  }

  // Text

  const ALPHABET := "98765432aAbBcCd" + "DeEfFgGhHiIjJkK" + "lLmMnNoOpPqQrRs" + "StTuUvVwWxXyYzZ"

  /** The characters of the alphabet, as codes. */
  function Letter(d: nat): byte
    requires d < 60
  {
    if d < 8 then 0x39 - d
    else if d % 2 == 0 then 0x61 + (d - 8) / 2
    else 0x41 + (d - 9) / 2
  }

  /** The place of a character in the alphabet, or -1. */
  function Reverse(c: byte): (d: int)
    ensures -1 <= d < 60
    ensures d >= 0 ==> Letter(d) == c
  {
    var code: int := c;
    if 0x32 <= code <= 0x39 then 0x39 - code
    else if 0x61 <= code <= 0x7A then 8 + 2 * (code - 0x61)
    else if 0x41 <= code <= 0x5A then 9 + 2 * (code - 0x41)
    else -1
  }

  lemma ReverseInverts(d: nat)
    requires d < 60
    ensures Reverse(Letter(d)) == d
  {
  }

  /** The alphabet has sixty characters, three more than the code needs. */
  lemma AlphabetSpelled(d: nat)
    requires d < 60
    ensures |ALPHABET| == 60 && ALPHABET[d] as int == Letter(d)
  {
    if d < 15 { FirstQuarter(d); } else if d < 30 { SecondQuarter(d); } else if d < 45 { ThirdQuarter(d); } else { LastQuarter(d); }
  }

  lemma FirstQuarter(d: nat)
    requires d < 15
    ensures "98765432aAbBcCd"[d] as int == Letter(d)
  {
  }

  lemma SecondQuarter(d: nat)
    requires 15 <= d < 30
    ensures "DeEfFgGhHiIjJkK"[d - 15] as int == Letter(d)
  {
  }

  lemma ThirdQuarter(d: nat)
    requires 30 <= d < 45
    ensures "lLmMnNoOpPqQrRs"[d - 30] as int == Letter(d)
  {
  }

  lemma LastQuarter(d: nat)
    requires 45 <= d < 60
    ensures "StTuUvVwWxXyYzZ"[d - 45] as int == Letter(d)
  {
  }

  /** The table `reverse` once the first `u` letters are entered. */
  ghost predicate IsReverse(table: seq<int>, u: int) {
    |table| == 256 && forall c: byte :: table[c] == if Reverse(c) < u then Reverse(c) else -1
  }

  lemma EnterLetter(table: seq<int>, u: nat)
    requires u < 60 && IsReverse(table, u)
    ensures IsReverse(table[Letter(u) := u], u + 1)
  {
    ReverseInverts(u);
    forall c: byte ensures table[Letter(u) := u][c] == if Reverse(c) < u + 1 then Reverse(c) else -1 {
      assert c != Letter(u) ==> Reverse(c) != u;
    }
  }

  /** The constructor of `Alphabet`, which fills the table `reverse`. */
  method FillReverse() returns (reverse: array<int>)
    ensures fresh(reverse) && IsReverse(reverse[..], 60)
  {
    reverse := new int[256](_ => -1);
    var u := 0;
    assert IsReverse(reverse[..], 0);
    AlphabetSpelled(0);
    while u < |ALPHABET|
      invariant 0 <= u <= |ALPHABET| == 60
      invariant IsReverse(reverse[..], u)
    {
      AlphabetSpelled(u);
      EnterLetter(reverse[..], u);
      reverse[ALPHABET[u] as int] := u;
      u := u + 1;
    }
  }

  function Pow57(n: nat): nat {
    if n == 0 then 1 else 57 * Pow57(n - 1)
  }

  /** The digits that `base57` writes, the least significant one first. */
  function Digits(x: nat, n: nat): (s: seq<byte>)
    ensures |s| == n
  {
    if n == 0 then [] else [Letter(x % 57)] + Digits(x / 57, n - 1)
  }

  predicate AllLetters(s: seq<byte>) {
    forall i :: 0 <= i < |s| ==> Reverse(s[i]) >= 0
  }

  /** The number that a string of letters stands for, without wrapping around. */
  function Value(s: seq<byte>): nat
    requires AllLetters(s)
  {
    if s == [] then 0 else Reverse(s[0]) + 57 * Value(s[1..])
  }

  /** `base57`. */
  method Base57(input: word) returns (s: seq<byte>)
    ensures s == Digits(input, 11)
  {
    var x: int := input;
    var buffer := new byte[12](_ => 0x2B);
    var u := 0;
    while u < 11
      invariant 0 <= u <= 11 && x >= 0
      invariant Digits(input, 11) == buffer[..u] + Digits(x, 11 - u)
    {
      AlphabetSpelled(x % 57);
      ghost var before := buffer[..u];
      buffer[u] := ALPHABET[x % 57] as int;
      assert buffer[..u + 1] == before + [Letter(x % 57)];
      ConcatAssoc(before, [Letter(x % 57)], Digits(x / 57, 10 - u));
      x := x / 57;
      u := u + 1;
    }
    assert buffer[..11] + [] == buffer[..11];
    return buffer[..11];
  }

  datatype CodeError = InvalidLength(length: nat) | InvalidChar(position: nat)

  lemma {:induction false} ValueSnoc(s: seq<byte>, c: byte)
    requires AllLetters(s + [c])
    ensures AllLetters(s) && Reverse(c) >= 0
    ensures Value(s + [c]) == Value(s) + Reverse(c) * Pow57(|s|)
  {
    assert (s + [c])[|s|] == c;
    assert forall i :: 0 <= i < |s| ==> (s + [c])[i] == s[i];
    if s == [] {
      assert (s + [c])[1..] == [];
    } else {
      assert (s + [c])[1..] == s[1..] + [c];
      ValueSnoc(s[1..], c);
      MulShuffle(Value(s[1..]), Reverse(c), Pow57(|s| - 1));
    }
  }

  lemma MulShuffle(v: int, d: int, p: int)
    ensures 57 * (v + d * p) == 57 * v + d * (57 * p)
  {
  }

  /** One step of the sum, modulo 2^64: neither the wrapped sum nor the wrapped factor matters. */
  lemma AddDigit(value: nat, d: nat, power: nat)
    ensures Mod(Mod(value) + Mod(d * Mod(power))) == Mod(value + d * power)
  {
    var m := 0x1_0000_0000_0000_0000;
    var a, b, c := value / m, power / m, d * (power % m) / m;
    assert d * power == d * (power % m) + d * b * m by {
      assert power == power % m + b * m;
      Distribute(d, power % m, b, m);
    }
    assert value + d * power == (value % m + d * (power % m) % m) + (a + c + d * b) * m;
    ModMultiple(value % m + d * (power % m) % m, a + c + d * b);
  }

  lemma Distribute(d: int, r: int, b: int, m: int)
    ensures d * (r + b * m) == d * r + d * b * m
  {
  }

  lemma ModMultiple(x: int, k: int)
    ensures (x + k * 0x1_0000_0000_0000_0000) % 0x1_0000_0000_0000_0000 == x % 0x1_0000_0000_0000_0000
  {
  }

  /** `d` copies of `factor`: the product that is added for a digit. */
  function Times(d: nat, factor: nat): nat {
    if d == 0 then 0 else factor + Times(d - 1, factor)
  }

  lemma {:induction false} TimesIsProduct(d: nat, factor: nat)
    ensures Times(d, factor) == d * factor
  {
    if d > 0 {
      TimesIsProduct(d - 1, factor);
      Distribute(factor, 1, d - 1, 1);
    }
  }

  /** `ret += f * factor` on words. */
  function Sum(ret: word, d: nat, factor: word): word {
    Mod(ret + Mod(Times(d, factor)))
  }

  lemma NextDigit(s: seq<byte>, u: nat, ret: word, factor: word)
    requires u < |s| && AllLetters(s[..u]) && Reverse(s[u]) >= 0
    requires ret == Mod(Value(s[..u])) && factor == Mod(Pow57(u))
    ensures AllLetters(s[..u + 1])
    ensures Sum(ret, Reverse(s[u]), factor) == Mod(Value(s[..u + 1]))
    ensures Mod(factor * 57) == Mod(Pow57(u + 1))
  {
    assert s[..u + 1] == s[..u] + [s[u]];
    ValueSnoc(s[..u], s[u]);
    AddDigit(Value(s[..u]), Reverse(s[u]), Pow57(u));
    TimesIsProduct(Reverse(s[u]), factor);
    NextPower(Pow57(u));
  }

  lemma NextPower(power: nat)
    ensures Mod(Mod(power) * 57) == Mod(57 * power)
  {
    var q := power / 0x1_0000_0000_0000_0000;
    assert 57 * power == Mod(power) * 57 + 57 * q * 0x1_0000_0000_0000_0000;
    ModMultiple(Mod(power) * 57, 57 * q);
  }

  /** `unbase57`: eleven letters are read, and the sum wraps around at 2^64. */
  method Unbase57(s: seq<byte>) returns (r: Result<word, CodeError>)
    ensures r.Ok? <==> |s| == 11 && AllLetters(s)
    ensures r.Ok? ==> r.value == Mod(Value(s))
    ensures r.Err? ==> if |s| != 11 then r.error == InvalidLength(|s|)
                       else r.error.InvalidChar? && r.error.position < 11 && Reverse(s[r.error.position]) < 0
                            && AllLetters(s[..r.error.position])
  {
    var reverse := FillReverse();
    if |s| != 11 {
      return Err(InvalidLength(|s|));
    }
    var ret, factor := 0, 1;
    var u := 0;
    while u < 11
      invariant 0 <= u <= 11
      invariant AllLetters(s[..u])
      invariant IsReverse(reverse[..], 60)
      invariant ret == Mod(Value(s[..u])) && factor == Mod(Pow57(u))
    {
      var f := reverse[s[u]];
      assert f == reverse[..][s[u]] == Reverse(s[u]);
      if f < 0 {
        return Err(InvalidChar(u));
      }
      NextDigit(s, u, ret, factor);
      ret := Sum(ret, f, factor);
      var wide: int := factor;
      factor := Mod(wide * 57);
      u := u + 1;
    }
    assert s[..11] == s;
    return Ok(ret);
  }

  /** What the digits stand for is what is left of the number below the power. */
  lemma {:induction false} ValueOfDigits(x: nat, n: nat)
    requires x < Pow57(n)
    ensures AllLetters(Digits(x, n)) && Value(Digits(x, n)) == x
    ensures forall i :: 0 <= i < n ==> Reverse(Digits(x, n)[i]) < 57
  {
    if n > 0 {
      ReverseInverts(x % 57);
      ValueOfDigits(x / 57, n - 1);
      assert Digits(x, n)[1..] == Digits(x / 57, n - 1);
    }
  }

  /** Eleven digits always suffice, because 57^11 exceeds 2^64. */
  lemma ElevenDigitsSuffice()
    ensures Pow57(11) == 20635899893042801193 > 0x1_0000_0000_0000_0000
  {
    assert Pow57(3) == 57 * Pow57(2) && Pow57(2) == 57 * Pow57(1) && Pow57(1) == 57 * Pow57(0);
    assert Pow57(6) == 57 * Pow57(5) && Pow57(5) == 57 * Pow57(4) && Pow57(4) == 57 * Pow57(3);
    assert Pow57(9) == 57 * Pow57(8) && Pow57(8) == 57 * Pow57(7) && Pow57(7) == 57 * Pow57(6);
    assert Pow57(11) == 57 * Pow57(10) && Pow57(10) == 57 * Pow57(9);
  }

  /** `unbase57` undoes `base57` on every word, and nothing wraps around on the way. */
  lemma Unbase57Inverts(x: word)
    ensures var s := Digits(x, 11);
            |s| == 11 && AllLetters(s) && Value(s) == x == Mod(Value(s)) && forall i :: 0 <= i < 11 ==> Reverse(s[i]) < 57
  {
    ElevenDigitsSuffice();
    ValueOfDigits(x, 11);
  }

  lemma SplitDigit(d: nat, v: nat)
    requires d < 57
    ensures (d + 57 * v) % 57 == d && (d + 57 * v) / 57 == v
  {
  }

  lemma {:induction false} DigitsOfValue(s: seq<byte>)
    requires AllLetters(s) && forall i :: 0 <= i < |s| ==> Reverse(s[i]) < 57
    ensures Digits(Value(s), |s|) == s && Value(s) < Pow57(|s|)
  {
    if s != [] {
      DigitsOfValue(s[1..]);
      SplitDigit(Reverse(s[0]), Value(s[1..]));
    }
  }

  /** None of the three spare letters is used. */
  predicate NoSpareLetters(s: seq<byte>) {
    forall i :: 0 <= i < |s| ==> Reverse(s[i]) < 57
  }

  lemma CodeIff(s: seq<byte>, x: nat)
    requires AllLetters(s) && x < Pow57(|s|)
    ensures Digits(x, |s|) == s <==> Value(s) == x && NoSpareLetters(s)
  {
    ValueOfDigits(x, |s|);
    if NoSpareLetters(s) {
      DigitsOfValue(s);
    }
  }

  /**
   The other way round it is not unique: a string that `unbase57` accepts is the code of its value exactly
   when it uses none of the three spare letters and its number fits into 64 bits.
   */
  lemma Base57InvertsIff(s: seq<byte>, x: word)
    requires |s| == 11 && AllLetters(s) && x == Mod(Value(s))
    ensures Digits(x, 11) == s <==> Value(s) < 0x1_0000_0000_0000_0000 && NoSpareLetters(s)
  {
    FitsIff(Value(s));
    ElevenDigitsSuffice();
    CodeIff(s, x);
  }

  lemma FitsIff(v: nat)
    ensures v == Mod(v) <==> v < 0x1_0000_0000_0000_0000
  {
  }

  /** Two texts for one handle: the spare letter of value 57 in the first place, and a one in the second place. */
  lemma SampleAlias()
    ensures var n: seq<byte> := [0x39, 0x39, 0x39, 0x39, 0x39, 0x39, 0x39, 0x39, 0x39];
            var s, s' := [Letter(57), 0x39] + n, [0x39, Letter(1)] + n;
            |s| == |s'| == 11 && s != s' && AllLetters(s) && AllLetters(s') && Value(s) == Value(s') == 57
  {
    var n: seq<byte> := [0x39, 0x39, 0x39, 0x39, 0x39, 0x39, 0x39, 0x39, 0x39];
    ZeroLetters(n);
    ValueOfTwo(Letter(57), 0x39, n);
    ValueOfTwo(0x39, Letter(1), n);
  }

  lemma ValueOfTwo(a: byte, b: byte, n: seq<byte>)
    requires Reverse(a) >= 0 && Reverse(b) >= 0 && AllLetters(n) && Value(n) == 0
    ensures AllLetters([a, b] + n) && Value([a, b] + n) == Reverse(a) + 57 * Reverse(b)
  {
    var s := [a, b] + n;
    assert s[1..] == [b] + n && s[1..][1..] == n;
  }

  lemma {:induction false} ZeroLetters(s: seq<byte>)
    requires forall i :: 0 <= i < |s| ==> s[i] == 0x39
    ensures AllLetters(s) && Value(s) == 0
  {
    if s != [] {
      ZeroLetters(s[1..]);
    }
  }
}
