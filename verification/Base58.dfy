/** The base-58 decoder of the wallet module. */
module Base58 {
  import opened Wrappers
  import opened Bytes

  type Digit = d: int | 0 <= d < 58

  /** Digits and letters without '0', 'I', 'O' and 'l'. */
  const ALPHABET := "123456789" + "ABCDEFGH" + "JKLMN" + "PQRSTUVWXYZ" + "abcdefghijk" + "mnopqrstuvwxyz"

  /** What the decoder needs of its alphabet: 58 letters, the first of them '1'. */
  type Alphabet = a: string | |a| == 58 && a[0] == '1' witness ALPHABET

  /** Consecutive characters. */
  predicate Consecutive(s: string, first: char) {
    forall k | 0 <= k < |s| :: s[k] as int == first as int + k
  }

  lemma AlphabetRuns()
    ensures Consecutive("123456789", '1') && Consecutive("ABCDEFGH", 'A') && Consecutive("JKLMN", 'J')
    ensures Consecutive("PQRSTUVWXYZ", 'P') && Consecutive("abcdefghijk", 'a') && Consecutive("mnopqrstuvwxyz", 'm')
  {
  }

  predicate IsDigitOrLetter(c: char) {
    '0' <= c <= '9' || 'A' <= c <= 'Z' || 'a' <= c <= 'z'
  }

  predicate Ascending(s: string) {
    forall i, j | 0 <= i < j < |s| :: s[i] < s[j]
  }

  lemma AscendingConcat(s: string, t: string, first: char)
    requires Ascending(s) && Consecutive(t, first) && (s != "" ==> s[|s| - 1] < first)
    ensures Ascending(s + t)
    ensures forall c :: c in s + t <==> c in s || first as int <= c as int < first as int + |t|
  {
    forall c | first as int <= c as int < first as int + |t|
      ensures c in t
    {
      assert t[c as int - first as int] == c;
    }
  }

  /** The alphabet lists, in ascending order, the digits and letters other than these four. */
  lemma AlphabetIs()
    ensures |ALPHABET| == 58 && Ascending(ALPHABET)
    ensures forall c :: c in ALPHABET <==> IsDigitOrLetter(c) && c != '0' && c != 'I' && c != 'O' && c != 'l'
  {
    AlphabetRuns();
    AscendingConcat("", "123456789", '1');
    AscendingConcat("123456789", "ABCDEFGH", 'A');
    AscendingConcat("123456789" + "ABCDEFGH", "JKLMN", 'J');
    AscendingConcat("123456789" + "ABCDEFGH" + "JKLMN", "PQRSTUVWXYZ", 'P');
    AscendingConcat("123456789" + "ABCDEFGH" + "JKLMN" + "PQRSTUVWXYZ", "abcdefghijk", 'a');
    AscendingConcat("123456789" + "ABCDEFGH" + "JKLMN" + "PQRSTUVWXYZ" + "abcdefghijk", "mnopqrstuvwxyz", 'm');
  }

  /** `indexOf`: the first position, or -1. */
  function IndexOf(s: string, c: char): (r: int)
    ensures -1 <= r < |s|
    ensures r == -1 <==> c !in s
    ensures r >= 0 ==> s[r] == c && c !in s[..r]
  {
    if s == "" then -1
    else if s[0] == c then 0
    else
      var r := IndexOf(s[1..], c);
      if r < 0 then -1 else r + 1
  }

  predicate InAlphabet(a: Alphabet, value: string) {
    forall i | 0 <= i < |value| :: value[i] in a
  }

  /** Only '1' is the zero digit, and different letters are different digits. */
  function DigitOf(a: Alphabet, c: char): (d: Digit)
    requires c in a
    ensures a[d] == c && (d == 0 <==> c == '1')
  {
    IndexOf(a, c)
  }

  function DigitsOf(a: Alphabet, s: string): (ds: seq<Digit>)
    requires InAlphabet(a, s)
    ensures |ds| == |s| && forall i | 0 <= i < |s| :: ds[i] == DigitOf(a, s[i])
  {
    if s == "" then [] else DigitsOf(a, s[..|s| - 1]) + [DigitOf(a, s[|s| - 1])]
  }

  // ----- Digit sequences

  /** The number a digit sequence denotes in base 58. */
  function Value(ds: seq<Digit>): nat {
    if ds == [] then 0 else 58 * Value(ds[..|ds| - 1]) + ds[|ds| - 1]
  }

  function LeadingZeros(ds: seq<Digit>): (n: nat)
    ensures n <= |ds| && (forall i | 0 <= i < n :: ds[i] == 0)
    ensures n < |ds| ==> ds[n] != 0
  {
    if ds == [] || ds[0] != 0 then 0 else 1 + LeadingZeros(ds[1..])
  }

  lemma LeadingZerosUnique(ds: seq<Digit>, n: nat)
    requires n <= |ds| && (forall i | 0 <= i < n :: ds[i] == 0)
    requires n < |ds| ==> ds[n] != 0
    ensures LeadingZeros(ds) == n
  {
  }

  function LittleEndian(b: seq<Byte>): nat {
    if b == [] then 0 else b[0] + 256 * LittleEndian(b[1..])
  }

  /** The base-256 digits of a carry, lowest first. */
  function CarryBytes(carry: nat): seq<Byte> {
    if carry == 0 then [] else [LowByte(carry)] + CarryBytes(carry / 256)
  }

  /** The carry after multiplying one byte by 58. */
  function Carry(carry: nat, byte: nat): nat {
    carry + byte * 58
  }

  /** b*58 + carry, byte by byte. */
  function MulAdd(b: seq<Byte>, carry: nat): seq<Byte> {
    if b == [] then CarryBytes(carry)
    else [LowByte(Carry(carry, b[0]))] + MulAdd(b[1..], Carry(carry, b[0]) / 256)
  }

  predicate LastNonzero(b: seq<Byte>) {
    b != [] && b[|b| - 1] != 0
  }

  /** One byte, or no superfluous high zero. */
  predicate Canonical(b: seq<Byte>) {
    |b| == 1 || LastNonzero(b)
  }

  lemma {:induction false} CarryBytesValue(carry: nat)
    ensures LittleEndian(CarryBytes(carry)) == carry
    ensures carry > 0 ==> LastNonzero(CarryBytes(carry))
  {
    if carry == 0 {
    } else {
      CarryBytesValue(carry / 256);
    }
  }

  lemma {:induction false} MulAddValue(b: seq<Byte>, carry: nat)
    ensures LittleEndian(MulAdd(b, carry)) == 58 * LittleEndian(b) + carry
  {
    if b == [] {
      CarryBytesValue(carry);
    } else {
      MulAddValue(b[1..], Carry(carry, b[0]) / 256);
    }
  }

  lemma {:induction false} MulAddKeepsLast(b: seq<Byte>, carry: nat)
    requires LastNonzero(b)
    ensures LastNonzero(MulAdd(b, carry))
  {
    var next := Carry(carry, b[0]) / 256;
    if |b| == 1 {
      CarryBytesValue(next);
    } else {
      MulAddKeepsLast(b[1..], next);
    }
  }

  lemma MulAddCanonical(b: seq<Byte>, carry: Digit)
    requires Canonical(b)
    ensures Canonical(MulAdd(b, carry))
  {
    if LastNonzero(b) {
      MulAddKeepsLast(b, carry);
    } else {
      assert b[0] == 0 && CarryBytes(0) == [];
    }
  }

  /** The bytes after multiplying and adding along a whole digit sequence. */
  function Accumulate(ds: seq<Digit>): seq<Byte> {
    if ds == [] then [0] else MulAdd(Accumulate(ds[..|ds| - 1]), ds[|ds| - 1])
  }

  lemma {:induction false} AccumulateValue(ds: seq<Digit>)
    ensures LittleEndian(Accumulate(ds)) == Value(ds) && Canonical(Accumulate(ds))
  {
    if ds == [] {
    } else {
      var front, d := ds[..|ds| - 1], ds[|ds| - 1];
      AccumulateValue(front);
      MulAddValue(Accumulate(front), d);
      MulAddCanonical(Accumulate(front), d);
    }
  }

  function Reverse(b: seq<Byte>): (r: seq<Byte>)
    ensures |r| == |b| && (forall i | 0 <= i < |b| :: r[i] == b[|b| - 1 - i])
  {
    if b == [] then [] else Reverse(b[1..]) + [b[0]]
  }

  function Zeros(n: nat): (z: seq<Byte>)
    ensures |z| == n && forall i | 0 <= i < n :: z[i] == 0
  {
    if n == 0 then [] else Zeros(n - 1) + [0]
  }

  function Decoded(ds: seq<Digit>): seq<Byte> {
    Reverse(Accumulate(ds) + Zeros(LeadingZeros(ds)))
  }

  // ----- The decoder

  lemma MulAddStep(before: seq<Byte>, index: nat, carry: nat)
    requires index < |before|
    ensures MulAdd(before[index..], carry)
            == [LowByte(Carry(carry, before[index]))] + MulAdd(before[index + 1..], Carry(carry, before[index]) / 256)
  {
  }

  lemma CarryBound(carry: nat, byte: Byte)
    requires carry <= 57
    ensures Carry(carry, byte) / 256 <= 57
  {
  }

  /** The first n carries: each comes from the one before and a byte, and none exceeds 57. */
  ghost predicate CarriesSoFar(before: seq<Byte>, carries: seq<nat>, n: nat)
    requires n <= |before|
  {
    && |carries| == n + 1 && (forall k | 0 <= k <= n :: carries[k] <= 57)
    && forall k | 0 <= k < n :: carries[k + 1] == Carry(carries[k], before[k]) / 256
  }

  lemma CarriesGrow(before: seq<Byte>, carries: seq<nat>, n: nat, next: nat)
    requires n < |before| && CarriesSoFar(before, carries, n) && next == Carry(carries[n], before[n]) / 256
    ensures CarriesSoFar(before, carries + [next], n + 1)
  {
    CarryBound(carries[n], before[n]);
  }

  /** The second loop: what is left of the carry becomes further bytes. */
  method PushCarry(low: seq<Byte>, rest: nat) returns (bytes: seq<Byte>)
    ensures bytes == low + CarryBytes(rest)
  {
    bytes := low;
    var carry := rest;
    while carry > 0
      invariant low + CarryBytes(rest) == bytes + CarryBytes(carry)
    {
      bytes := bytes + [LowByte(carry)];
      carry := carry / 256;
    }
  }

  /** The body of the loop: one digit is multiplied in. The carries into and after each byte never exceed 57. */
  method MultiplyIn(before: seq<Byte>, digit: Digit) returns (bytes: seq<Byte>, ghost carries: seq<nat>)
    ensures bytes == MulAdd(before, digit)
    ensures |carries| == |before| + 1 && carries[0] == digit
    ensures forall k | 0 <= k < |before| :: carries[k + 1] == Carry(carries[k], before[k]) / 256
    ensures forall k | 0 <= k < |carries| :: carries[k] <= 57
  {
    bytes := before;
    var carry: nat := digit;
    carries := [carry];
    for index := 0 to |before|
      invariant |bytes| == |before|
      invariant CarriesSoFar(before, carries, index) && carries[0] == digit && carries[index] == carry
      invariant forall k | index <= k < |bytes| :: bytes[k] == before[k]
      invariant MulAdd(before, digit) == bytes[..index] + MulAdd(before[index..], carry)
    {
      MulAddStep(before, index, carry);
      ghost var done := bytes[..index];
      var sum := Carry(carry, bytes[index]);
      CarriesGrow(before, carries, index, sum / 256);
      bytes := bytes[index := LowByte(sum)];
      carry := sum / 256;
      carries := carries + [carry];
      assert bytes[..index + 1] == done + [bytes[index]];
    }
    assert bytes[..|before|] == bytes;
    bytes := PushCarry(bytes, carry);
  }

  /** `decodeBase58`: throws exactly when some character is outside the alphabet. */
  method DecodeBase58(value: string) returns (r: Outcome<seq<Byte>>)
    ensures r.Returned? <==> InAlphabet(ALPHABET, value)
    ensures r.Returned? ==> r.value == Decoded(DigitsOf(ALPHABET, value))
  {
    r := DecodeWith(ALPHABET, value);
  }

  lemma AccumulateStep(a: Alphabet, value: string, i: nat)
    requires i < |value| && InAlphabet(a, value[..i]) && value[i] in a
    ensures InAlphabet(a, value[..i + 1])
    ensures Accumulate(DigitsOf(a, value[..i + 1])) == MulAdd(Accumulate(DigitsOf(a, value[..i])), DigitOf(a, value[i]))
  {
    var next := value[..i + 1];
    assert next[..i] == value[..i];
    assert DigitsOf(a, next)[..i] == DigitsOf(a, value[..i]);
  }

  method DecodeWith(a: Alphabet, value: string) returns (r: Outcome<seq<Byte>>)
    ensures r.Returned? <==> InAlphabet(a, value)
    ensures r.Returned? ==> r.value == Decoded(DigitsOf(a, value))
  {
    var bytes: seq<Byte> := [0];
    for i := 0 to |value|
      invariant InAlphabet(a, value[..i])
      invariant bytes == Accumulate(DigitsOf(a, value[..i]))
    {
      var valueIndex := IndexOf(a, value[i]);
      if valueIndex < 0 {
        return Threw;
      }
      AccumulateStep(a, value, i);
      var next, _ := MultiplyIn(bytes, valueIndex);
      bytes := next;
    }
    assert value[..|value|] == value;
    bytes := AppendOnes(a, value, bytes);
    r := Returned(Reverse(bytes));
  }

  /** One zero byte for every leading '1'. */
  method AppendOnes(a: Alphabet, value: string, before: seq<Byte>) returns (bytes: seq<Byte>)
    requires InAlphabet(a, value)
    ensures bytes == before + Zeros(LeadingZeros(DigitsOf(a, value)))
  {
    bytes := before;
    var k := 0;
    while k < |value| && value[k] == '1'
      invariant 0 <= k <= |value|
      invariant forall j | 0 <= j < k :: value[j] == '1'
      invariant bytes == before + Zeros(k)
    {
      bytes := bytes + [0];
      k := k + 1;
    }
    LeadingZerosUnique(DigitsOf(a, value), k);
  }

  // ----- What the decoded bytes mean

  lemma {:induction false} ReverseValue(b: seq<Byte>)
    ensures BigEndian(Reverse(b)) == LittleEndian(b)
  {
    if b == [] {
    } else {
      ReverseValue(b[1..]);
      assert Reverse(b)[..|b| - 1] == Reverse(b[1..]);
    }
  }

  lemma {:induction false} HighZeros(b: seq<Byte>, n: nat)
    ensures LittleEndian(b + Zeros(n)) == LittleEndian(b)
  {
    if n == 0 {
      assert b + Zeros(n) == b;
    } else {
      assert b + Zeros(n) == (b + Zeros(n - 1)) + [0];
      HighZero(b + Zeros(n - 1));
      HighZeros(b, n - 1);
    }
  }

  lemma {:induction false} HighZero(b: seq<Byte>)
    ensures LittleEndian(b + [0]) == LittleEndian(b)
  {
    if b == [] {
    } else {
      HighZero(b[1..]);
      assert (b + [0])[1..] == b[1..] + [0];
    }
  }

  predicate AllZero(ds: seq<Digit>) {
    forall i | 0 <= i < |ds| :: ds[i] == 0
  }

  lemma {:induction false} ValueZeroIffAllZero(ds: seq<Digit>)
    ensures Value(ds) == 0 <==> AllZero(ds)
  {
    if ds == [] {
    } else {
      var front := ds[..|ds| - 1];
      ValueZeroIffAllZero(front);
      if AllZero(front) && ds[|ds| - 1] == 0 {
        assert forall i | 0 <= i < |ds| :: i < |front| ==> ds[i] == front[i];
      }
      if AllZero(ds) {
        assert forall i | 0 <= i < |front| :: front[i] == ds[i];
      }
    }
  }

  lemma {:induction false} AccumulateZero(ds: seq<Digit>)
    requires AllZero(ds)
    ensures Accumulate(ds) == [0]
  {
    if ds == [] {
    } else {
      var front := ds[..|ds| - 1];
      assert forall i | 0 <= i < |front| :: front[i] == ds[i];
      AccumulateZero(front);
      assert MulAdd([0], 0) == [LowByte(0)] + MulAdd([], 0);
    }
  }

  /** The bytes denote the number the string denotes. */
  lemma DecodedValue(ds: seq<Digit>)
    ensures BigEndian(Decoded(ds)) == Value(ds)
  {
    AccumulateValue(ds);
    HighZeros(Accumulate(ds), LeadingZeros(ds));
    ReverseValue(Accumulate(ds) + Zeros(LeadingZeros(ds)));
  }

  /**
    * Shape: as many zero bytes as leading '1's and then a number without leading zero; but a
    * string of n '1's gives n+1 zero bytes, one more than base 58 prescribes.
    */
  lemma DecodedShape(ds: seq<Digit>)
    ensures AllZero(ds) ==> Decoded(ds) == Zeros(|ds| + 1)
    ensures !AllZero(ds) ==>
              var k := LeadingZeros(ds);
              k < |Decoded(ds)| && Decoded(ds)[..k] == Zeros(k) && Decoded(ds)[k] != 0
  {
    var b, k := Accumulate(ds), LeadingZeros(ds);
    if AllZero(ds) {
      AccumulateZero(ds);
      LeadingZerosUnique(ds, |ds|);
    } else {
      ValueZeroIffAllZero(ds);
      AccumulateValue(ds);
      PositiveEndsNonzero(b);
      ReversedShape(b, k);
    }
  }

  lemma PositiveEndsNonzero(b: seq<Byte>)
    requires Canonical(b) && LittleEndian(b) != 0
    ensures LastNonzero(b)
  {
    if |b| == 1 {
      assert LittleEndian(b) == b[0] + 256 * LittleEndian([]);
    }
  }

  lemma ReversedShape(b: seq<Byte>, k: nat)
    requires LastNonzero(b)
    ensures var r := Reverse(b + Zeros(k)); k < |r| && r[..k] == Zeros(k) && r[k] != 0
  {
  }

  lemma {:induction false} LeadingZerosAddNothing(ds: seq<Digit>, k: nat)
    requires k <= |ds| && forall i | 0 <= i < k :: ds[i] == 0
    ensures Value(ds) == Value(ds[k..])
  {
    var n := |ds| - 1;
    if k == |ds| {
      ValueZeroIffAllZero(ds);
    } else {
      LeadingZerosAddNothing(ds[..n], k);
      assert ds[k..][..n - k] == ds[..n][k..];
    }
  }

  lemma SplitLast(v: nat, d: Digit, w: nat, e: Digit)
    requires 58 * v + d == 58 * w + e
    ensures v == w && d == e
  {
  }

  /** Without a leading zero digit the digits are determined by the number. */
  lemma {:induction false} UniqueDigits(s: seq<Digit>, t: seq<Digit>)
    requires Value(s) == Value(t)
    requires s != [] ==> s[0] != 0
    requires t != [] ==> t[0] != 0
    ensures s == t
    decreases |s|
  {
    ValueZeroIffAllZero(s);
    ValueZeroIffAllZero(t);
    if s == [] || t == [] {
    } else {
      var m, n := |s| - 1, |t| - 1;
      SplitLast(Value(s[..m]), s[m], Value(t[..n]), t[n]);
      UniqueDigits(s[..m], t[..n]);
      assert s == s[..m] + [s[m]] && t == t[..n] + [t[n]];
    }
  }

  lemma NotBefore(b: seq<Byte>, j: nat, k: nat)
    requires j < |b| && b[j] != 0
    requires k < |b| && b[..k] == Zeros(k)
    ensures k <= j
  {
  }

  lemma SameDigits(s: seq<Digit>, t: seq<Digit>, k: nat)
    requires Value(s) == Value(t) && k < |s| && k < |t| && s[k] != 0 && t[k] != 0
    requires forall i | 0 <= i < k :: s[i] == t[i] == 0
    ensures s == t
  {
    LeadingZerosAddNothing(s, k);
    LeadingZerosAddNothing(t, k);
    UniqueDigits(s[k..], t[k..]);
    assert s == s[..k] + s[k..] && t == t[..k] + t[k..];
  }

  lemma DecodedInjective(s: seq<Digit>, t: seq<Digit>)
    requires Decoded(s) == Decoded(t)
    ensures s == t
  {
    DecodedValue(s);
    DecodedValue(t);
    DecodedShape(s);
    DecodedShape(t);
    ValueZeroIffAllZero(s);
    ValueZeroIffAllZero(t);
    if AllZero(s) {
      assert |Zeros(|s| + 1)| == |Zeros(|t| + 1)|;
    } else {
      var k, j := LeadingZeros(s), LeadingZeros(t);
      NotBefore(Decoded(s), k, j);
      NotBefore(Decoded(s), j, k);
      SameDigits(s, t, k);
    }
  }

  /** Decoding is injective on all alphabet strings. */
  lemma DecodeIsInjective(a: Alphabet, s: string, t: string)
    requires InAlphabet(a, s) && InAlphabet(a, t) && Decoded(DigitsOf(a, s)) == Decoded(DigitsOf(a, t))
    ensures s == t
  {
    DecodedInjective(DigitsOf(a, s), DigitsOf(a, t));
    forall i | 0 <= i < |s|
      ensures s[i] == t[i]
    {
      assert DigitsOf(a, s)[i] == DigitsOf(a, t)[i];
    }
  }
}
