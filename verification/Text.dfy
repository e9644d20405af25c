/** String helpers: lower case, substrings and decimal numerals. */
module Text {

  function LowerChar(c: char): char {
    if 'A' <= c <= 'Z' then (c as int + 32) as char else c
  }

  /** ASCII lower case. */
  function Lower(s: string): (r: string)
    ensures |r| == |s| && forall i | 0 <= i < |s| :: r[i] == LowerChar(s[i])
  {
    if s == "" then "" else [LowerChar(s[0])] + Lower(s[1..])
  }

  /** Equal up to ASCII letter case. */
  predicate SameLetter(c: char, d: char) {
    || c == d
    || ('A' <= c <= 'Z' && d as int == c as int + 32)
    || ('A' <= d <= 'Z' && c as int == d as int + 32)
  }

  predicate SameLetters(s: string, t: string) {
    |s| == |t| && forall i | 0 <= i < |s| :: SameLetter(s[i], t[i])
  }

  /** Lower case keeps every letter but its case, has no upper case left, and decides equality up to case. */
  lemma LowerDecides(s: string, t: string)
    ensures SameLetters(Lower(s), s) && forall c | c in Lower(s) :: !('A' <= c <= 'Z')
    ensures Lower(s) == Lower(t) <==> SameLetters(s, t)
  {
    if Lower(s) == Lower(t) {
      forall i | 0 <= i < |s|
        ensures SameLetter(s[i], t[i])
      {
        assert Lower(s)[i] == Lower(t)[i];
      }
    }
  }

  /** Where a character first occurs splits a string in one way. */
  lemma SplitsOnce(c: char, a: string, u: string, b: string, v: string)
    requires c !in a && c !in b && a + [c] + u == b + [c] + v
    ensures a == b && u == v
  {
    var s, t := a + [c] + u, b + [c] + v;
    assert s[|a|] == c && t[|b|] == c;
    assert forall i | 0 <= i < |a| :: s[i] == a[i] && a[i] in a;
    assert forall i | 0 <= i < |b| :: t[i] == b[i] && b[i] in b;
    assert s[..|a|] == a && t[..|b|] == b;
    assert s[|a| + 1..] == u && t[|b| + 1..] == v;
  }

  /** After its last occurrence a character does not occur. */
  lemma LastAt(c: char, u: string, a: string, s: string)
    requires c !in a && s == u + [c] + a
    ensures |u| < |s| && s[|u|] == c && forall i | |u| < i < |s| :: s[i] != c
    ensures s[..|u|] == u && s[|u| + 1..] == a
  {
    forall i | |u| < i < |s|
      ensures s[i] != c
    {
      assert s[i] == a[i - |u| - 1] && a[i - |u| - 1] in a;
    }
  }

  /** And where it last occurs. */
  lemma SplitsLast(c: char, u: string, a: string, v: string, b: string)
    requires c !in a && c !in b && u + [c] + a == v + [c] + b
    ensures u == v && a == b
  {
    LastAt(c, u, a, u + [c] + a);
    LastAt(c, v, b, u + [c] + a);
  }

  lemma DropHead(head: string, u: string, v: string)
    requires head + u == head + v
    ensures u == v
  {
    assert (head + u)[|head|..] == u && (head + v)[|head|..] == v;
  }

  /** `join` with line breaks. */
  function JoinLines(lines: seq<string>): string
    requires lines != []
  {
    if |lines| == 1 then lines[0] else lines[0] + ['\n'] + JoinLines(lines[1..])
  }

  /** Equally many lines, all but the last without line breaks, are told by their text. */
  lemma {:induction false} JoinTellsLines(a: seq<string>, b: seq<string>)
    requires 0 < |a| == |b| && JoinLines(a) == JoinLines(b)
    requires forall i | 0 <= i < |a| - 1 :: '\n' !in a[i] && '\n' !in b[i]
    ensures a == b
  {
    if |a| == 1 {
    } else {
      SplitsOnce('\n', a[0], JoinLines(a[1..]), b[0], JoinLines(b[1..]));
      JoinTellsLines(a[1..], b[1..]);
      assert a == [a[0]] + a[1..] && b == [b[0]] + b[1..];
    }
  }

  /** Lines that differ in the last alone are told by their text. */
  lemma {:induction false} JoinTellsLast(a: seq<string>, b: seq<string>)
    requires 0 < |a| == |b| && JoinLines(a) == JoinLines(b) && a[..|a| - 1] == b[..|a| - 1]
    ensures a[|a| - 1] == b[|a| - 1]
  {
    if |a| == 1 {
    } else {
      assert a[0] == a[..|a| - 1][0] && b[0] == b[..|a| - 1][0];
      DropHead(a[0] + ['\n'], JoinLines(a[1..]), JoinLines(b[1..]));
      assert a[1..][..|a| - 2] == a[..|a| - 1][1..] && b[1..][..|a| - 2] == b[..|a| - 1][1..];
      JoinTellsLast(a[1..], b[1..]);
    }
  }

  /** What stands before the last line. */
  lemma {:induction false} JoinedBefore(lines: seq<string>) returns (u: string)
    requires |lines| > 1
    ensures JoinLines(lines) == u + ['\n'] + lines[|lines| - 1]
  {
    if |lines| == 2 {
      u := lines[0];
    } else {
      var v := JoinedBefore(lines[1..]);
      u := lines[0] + ['\n'] + v;
      assert u + ['\n'] + lines[|lines| - 1] == lines[0] + ['\n'] + (v + ['\n'] + lines[|lines| - 1]);
    }
  }

  /** `includes`. */
  predicate Contains(s: string, part: string) {
    part <= s || (s != "" && Contains(s[1..], part))
  }

  function DigitChar(d: nat): char
    requires d < 10
  {
    '0' + d as char
  }

  /** `String(n)`. */
  function Decimal(n: nat): (s: string)
    ensures s != ""
  {
    if n < 10 then [DigitChar(n)] else Decimal(n / 10) + [DigitChar(n % 10)]
  }

  function PadStart(s: string, width: nat): (r: string)
    ensures |r| >= |s| && |r| >= width
    decreases width - |s|
  {
    if |s| >= width then s else PadStart(['0'] + s, width)
  }

  function DigitValue(c: char): int {
    c as int - '0' as int
  }

  /** The number a numeral denotes. */
  function Numeral(s: string): int {
    if s == "" then 0 else 10 * Numeral(s[..|s| - 1]) + DigitValue(s[|s| - 1])
  }

  lemma {:induction false} DecimalDenotes(n: nat)
    ensures Numeral(Decimal(n)) == n
  {
    var s := Decimal(n);
    if n < 10 {
      assert s[..0] == "";
    } else {
      DecimalDenotes(n / 10);
      assert s[..|s| - 1] == Decimal(n / 10);
    }
  }

  lemma {:induction false} LeadingZeroDenotes(s: string)
    ensures Numeral(['0'] + s) == Numeral(s)
  {
    var t := ['0'] + s;
    if s == "" {
      assert t[..0] == "";
    } else {
      LeadingZeroDenotes(s[..|s| - 1]);
      assert t[..|t| - 1] == ['0'] + s[..|s| - 1];
    }
  }

  lemma {:induction false} PaddingDenotes(s: string, width: nat)
    ensures Numeral(PadStart(s, width)) == Numeral(s)
    decreases width - |s|
  {
    if |s| >= width {
    } else {
      PaddingDenotes(['0'] + s, width);
      LeadingZeroDenotes(s);
    }
  }

  /** `nextId`: a prefix and the number, padded with zeros to three digits. */
  function NextId(prefix: string, n: nat): string {
    prefix + "_" + PadStart(Decimal(n), 3)
  }

  /** Ids of one prefix never collide. */
  lemma NextIdInjective(prefix: string, m: nat, n: nat)
    requires NextId(prefix, m) == NextId(prefix, n)
    ensures m == n
  {
    var a, b := PadStart(Decimal(m), 3), PadStart(Decimal(n), 3);
    var head := prefix + "_";
    assert (head + a)[|head|..] == a && (head + b)[|head|..] == b;
    DecimalDenotes(m);
    DecimalDenotes(n);
    PaddingDenotes(Decimal(m), 3);
    PaddingDenotes(Decimal(n), 3);
  }

  predicate AllDigits(s: string) {
    forall i | 0 <= i < |s| :: '0' <= s[i] <= '9'
  }

  lemma {:induction false} DecimalDigits(n: nat)
    ensures AllDigits(Decimal(n)) && (n > 0 ==> Decimal(n)[0] != '0')
  {
    if n < 10 {
    } else {
      DecimalDigits(n / 10);
    }
  }

  lemma {:induction false} PaddedDigits(s: string, width: nat)
    requires AllDigits(s)
    ensures AllDigits(PadStart(s, width)) && (|PadStart(s, width)| > width ==> PadStart(s, width) == s)
    decreases width - |s|
  {
    if |s| >= width {
    } else {
      PaddedDigits(['0'] + s, width);
    }
  }

  /** After the prefix and an underscore: at least three digits that denote the number, without needless zeros. */
  lemma NextIdShape(prefix: string, n: nat) returns (digits: string)
    ensures NextId(prefix, n) == prefix + "_" + digits
    ensures |digits| >= 3 && AllDigits(digits) && Numeral(digits) == n && (|digits| > 3 ==> digits[0] != '0')
  {
    digits := PadStart(Decimal(n), 3);
    DecimalDigits(n);
    PaddedDigits(Decimal(n), 3);
    DecimalDenotes(n);
    PaddingDenotes(Decimal(n), 3);
  }
}
