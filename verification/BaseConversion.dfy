/**
  recursive_function: `anybase` appends the digits of a number in a given base to a C string.
 */
module BaseConversion {

  const SELECTION: string := "0123456789ABCEDFGHIGKLMNOPQRSTUVWXYZ"
  const STANDARD: string := "0123456789ABCDEFGHIJKLMNOPQRSTUVWXYZ"

  // ---------------------------------------------------------------- the digits

  /** The digits of n in base b, most significant first; none for zero. */
  function Digits(n: nat, b: nat): (ds: seq<nat>)
    requires b >= 2
    ensures forall i :: 0 <= i < |ds| ==> ds[i] < b
    ensures n > 0 ==> ds != [] && ds[0] != 0
    ensures n == 0 ==> ds == []
  {
    if n == 0 then [] else Digits(n / b, b) + [n % b]
  }

  function Value(ds: seq<nat>, b: nat): nat {
    if ds == [] then 0 else Value(ds[..|ds| - 1], b) * b + ds[|ds| - 1]
  }

  lemma ValueSnoc(ds: seq<nat>, d: nat, b: nat)
    ensures Value(ds + [d], b) == Value(ds, b) * b + d
  {
    assert (ds + [d])[..|ds|] == ds;
  }

  lemma Division(n: nat, b: nat)
    requires b >= 2
    ensures n == (n / b) * b + n % b && n % b < b
    ensures n > 0 ==> n / b < n
  {}

  lemma {:induction false} ValueOfDigits(n: nat, b: nat)
    requires b >= 2
    ensures Value(Digits(n, b), b) == n
    decreases n
  {
    if n > 0 {
      var q, d := n / b, n % b;
      Division(n, b);
      ValueOfDigits(q, b);
      ValueSnoc(Digits(q, b), d, b);
    }
  }

  function Pow(b: nat, k: nat): nat {
    if k == 0 then 1 else b * Pow(b, k - 1)
  }

  /** The number of digits is exact. */
  lemma {:induction false} DigitCount(n: nat, b: nat)
    requires b >= 2 && n > 0
    ensures Pow(b, |Digits(n, b)| - 1) <= n < Pow(b, |Digits(n, b)|)
    decreases n
  {
    var q, d, k := n / b, n % b, |Digits(n, b)|;
    Division(n, b);
    assert k == |Digits(q, b)| + 1;
    if q == 0 {
      assert Pow(b, 0) == 1 && Pow(b, 1) == b;
    } else {
      DigitCount(q, b);
      Scale(Pow(b, k - 2), q, Pow(b, k - 1), b, d);
    }
  }

  /** Multiplying bounds by the base and adding a digit. */
  lemma Scale(lo: nat, q: nat, hi: nat, b: nat, d: nat)
    requires lo <= q < hi && d < b
    ensures b * lo <= q * b + d < b * hi
  {
    assert b * lo <= b * q;
    assert b * (q + 1) <= b * hi;
  }

  lemma Product(a: nat, a': nat, x: nat, x': nat)
    requires a <= a' && x <= x'
    ensures a * x <= a' * x'
  {
    assert a * x <= a' * x;
    assert a' * x <= a' * x';
  }

  lemma {:induction false} PowGrows(b: nat, k: nat)
    requires b >= 2
    ensures Pow(2, k) <= Pow(b, k)
  {
    if k > 0 {
      PowGrows(b, k - 1);
      Product(2, b, Pow(2, k - 1), Pow(b, k - 1));
    }
  }

  lemma {:induction false} PowMonotone(k: nat, m: nat)
    requires k <= m
    ensures Pow(2, k) <= Pow(2, m)
    decreases m
  {
    if k < m { PowMonotone(k, m - 1); }
  }

  lemma PowTwo31()
    ensures Pow(2, 31) == 0x8000_0000
  {
    assert Pow(2, 8) == 256;
    assert Pow(2, 16) == 65536;
    assert Pow(2, 24) == 0x100_0000;
  }

  /** A positive 32-bit int needs at most 31 characters in any base. */
  lemma FitsIn31(n: nat, b: nat)
    requires b >= 2 && n < 0x8000_0000
    ensures |Digits(n, b)| <= 31
  {
    var k := |Digits(n, b)|;
    if n > 0 && k > 31 {
      DigitCount(n, b);
      PowGrows(b, k - 1);
      PowMonotone(31, k - 1);
      PowTwo31();
    }
  }

  // -------------------------------------------------------------- the alphabet

  function CodeOf(d: nat): int {
    if d < 10 then '0' as int + d
    else if d == 13 then 'E' as int
    else if d == 14 then 'D' as int
    else if d == 19 then 'G' as int
    else 'A' as int + (d - 10)
  }

  lemma Alphabet(d: nat)
    requires d < 36
    ensures |SELECTION| == 36 && SELECTION[d] as int == CodeOf(d)
  {}

  /** Two digits share a character only if they are 16 and 19. */
  lemma AlphabetClash(d: nat, e: nat)
    requires d < e < 36
    ensures SELECTION[d] == SELECTION[e] <==> d == 16 && e == 19
  {
    Alphabet(d);
    Alphabet(e);
  }

  /** The text anybase produces. */
  function Text(ds: seq<nat>): (t: string)
    requires forall i :: 0 <= i < |ds| ==> ds[i] < 36
    ensures |t| == |ds|
    ensures forall i :: 0 <= i < |ds| ==> t[i] == SELECTION[ds[i]]
  {
    seq(|ds|, i requires 0 <= i < |ds| => SELECTION[ds[i]])
  }

  function NumberText(n: nat, b: nat): string
    requires 2 <= b <= 36
  {
    Text(Digits(n, b))
  }

  // ---------------------------------------------------------------- round trip

  /** The first digit with the given character. */
  function FirstIndex(alphabet: string, c: char): (d: nat)
    ensures d <= |alphabet|
    ensures forall i :: 0 <= i < d ==> alphabet[i] != c
    ensures d < |alphabet| ==> alphabet[d] == c
  {
    if alphabet == [] || alphabet[0] == c then 0 else 1 + FirstIndex(alphabet[1..], c)
  }

  lemma FirstIndexOfDigit(d: nat)
    requires d < 36
    ensures FirstIndex(SELECTION, SELECTION[d]) == if d == 19 then 16 else d
  {
    var f := FirstIndex(SELECTION, SELECTION[d]);
    assert |SELECTION| == 36;
    if f < d { AlphabetClash(f, d); }
    if d == 19 { AlphabetClash(16, 19); }
  }

  /** Reading text back, each character as the first digit it stands for. */
  function Read(t: string): (ds: seq<nat>)
    ensures |ds| == |t|
  {
    seq(|t|, i requires 0 <= i < |t| => FirstIndex(SELECTION, t[i]))
  }

  function Decode(t: string, b: nat): nat {
    Value(Read(t), b)
  }

  /** Digits as a reader of the text sees them. */
  function Seen(ds: seq<nat>): (r: seq<nat>)
    ensures |r| == |ds|
  {
    seq(|ds|, i requires 0 <= i < |ds| => if ds[i] == 19 then 16 else ds[i])
  }

  lemma ReadText(ds: seq<nat>)
    requires forall i :: 0 <= i < |ds| ==> ds[i] < 36
    ensures Read(Text(ds)) == Seen(ds)
  {
    forall i | 0 <= i < |ds| ensures Read(Text(ds))[i] == Seen(ds)[i] {
      FirstIndexOfDigit(ds[i]);
    }
  }

  /** Reading a 19 as 16 makes the value smaller, wherever it stands. */
  lemma {:induction false} SeenIsSmaller(ds: seq<nat>, b: nat)
    requires b >= 1
    ensures if 19 in ds then Value(Seen(ds), b) < Value(ds, b) else Seen(ds) == ds
    decreases |ds|
  {
    if ds != [] {
      var high, low := ds[..|ds| - 1], ds[|ds| - 1];
      var seen := if low == 19 then 16 else low;
      assert ds == high + [low] && Seen(ds) == Seen(high) + [seen];
      SeenIsSmaller(high, b);
      ValueSnoc(high, low, b);
      ValueSnoc(Seen(high), seen, b);
      if 19 in high {
        StrictlyLess(Value(Seen(high), b), Value(high, b), b);
      }
    }
  }

  lemma StrictlyLess(x: nat, y: nat, b: nat)
    requires x < y && b >= 1
    ensures x * b < y * b
  {
    assert y * b == x * b + (y - x) * b;
    assert (y - x) * b >= b by { Product(1, y - x, b, b); }
  }

  /** Round trip, exactly: the text decodes to the number if and only if 19 is none of its digits. */
  lemma RoundTripIff(n: nat, b: nat)
    requires 2 <= b <= 36
    ensures Decode(NumberText(n, b), b) == n <==> 19 !in Digits(n, b)
  {
    var ds := Digits(n, b);
    ReadText(ds);
    ValueOfDigits(n, b);
    SeenIsSmaller(ds, b);
  }

  /** So in every base up to 19 every text decodes to its number. */
  lemma RoundTrip(n: nat, b: nat)
    requires 2 <= b <= 19
    ensures Decode(NumberText(n, b), b) == n
  {
    RoundTripIff(n, b);
  }

  /** Exactly which numbers are printed alike: those whose digits agree once 19 is read as 16. */
  lemma SameTextIff(n: nat, m: nat, b: nat)
    requires 2 <= b <= 36
    ensures NumberText(n, b) == NumberText(m, b) <==> Seen(Digits(n, b)) == Seen(Digits(m, b))
  {
    var ds, es := Digits(n, b), Digits(m, b);
    ReadText(ds);
    ReadText(es);
    if Seen(ds) == Seen(es) {
      assert |ds| == |es|;
      AlphabetClash(16, 19);
      forall i | 0 <= i < |ds| ensures Text(ds)[i] == Text(es)[i] {
        assert Seen(ds)[i] == Seen(es)[i];
      }
    }
  }

  ghost predicate Injective(b: nat)
    requires 2 <= b <= 36
  {
    forall n: nat, m: nat :: NumberText(n, b) == NumberText(m, b) ==> n == m
  }

  lemma SmallQuotient(n: nat, b: nat)
    requires n < b
    ensures n / b == 0 && n % b == n
  {}

  lemma OneDigitText(n: nat, b: nat)
    requires 0 < n < b <= 36 && b >= 2
    ensures NumberText(n, b) == [SELECTION[n]]
  {
    SmallQuotient(n, b);
    var none := Digits(n / b, b);
    assert none == [] && Digits(n, b) == none + [n];
  }

  lemma SixteenAndNineteen(b: nat)
    requires 20 <= b <= 36
    ensures NumberText(16, b) == NumberText(19, b)
  {
    OneDigitText(16, b);
    OneDigitText(19, b);
    AlphabetClash(16, 19);
  }

  /** The conversion is injective if and only if the base is at most 19. */
  lemma InjectiveIff(b: nat)
    requires 2 <= b <= 36
    ensures Injective(b) <==> b <= 19
  {
    if b <= 19 {
      forall n: nat, m: nat | NumberText(n, b) == NumberText(m, b) ensures n == m {
        RoundTrip(n, b);
        RoundTrip(m, b);
      }
    } else {
      SixteenAndNineteen(b);
    }
  }

  /** The conventional spelling of a sequence of digits. */
  function StandardSpelling(ds: seq<nat>): (t: string)
    requires forall i :: 0 <= i < |ds| ==> ds[i] < 36
    ensures |t| == |ds|
    ensures forall i :: 0 <= i < |ds| ==> t[i] == STANDARD[ds[i]]
  {
    assert |STANDARD| == 36;
    seq(|ds|, i requires 0 <= i < |ds| => STANDARD[ds[i]])
  }

  /** The conventional text of a number. */
  function StandardText(n: nat, b: nat): string
    requires 2 <= b <= 36
  {
    if n == 0 then "0" else StandardSpelling(Digits(n, b))
  }

  /** None of the digits has another character than usual. */
  predicate Conventional(ds: seq<nat>) {
    forall i :: 0 <= i < |ds| ==> ds[i] !in {13, 14, 19}
  }

  lemma SameCharacterIff(d: nat)
    requires d < 36
    ensures SELECTION[d] == STANDARD[d] <==> d !in {13, 14, 19}
  {
    Alphabet(d);
    assert STANDARD[d] as int == if d < 10 then '0' as int + d else 'A' as int + (d - 10);
  }

  lemma SpelledAlikeIff(ds: seq<nat>)
    requires forall i :: 0 <= i < |ds| ==> ds[i] < 36
    ensures Text(ds) == StandardSpelling(ds) <==> Conventional(ds)
  {
    var t, u := Text(ds), StandardSpelling(ds);
    forall i | 0 <= i < |ds| ensures t[i] == u[i] <==> ds[i] !in {13, 14, 19} {
      SameCharacterIff(ds[i]);
    }
    if t == u {
      forall i | 0 <= i < |ds| ensures ds[i] !in {13, 14, 19} { assert t[i] == u[i]; }
    } else {
      var i :| 0 <= i < |ds| && t[i] != u[i];
      assert ds[i] in {13, 14, 19};
    }
  }

  /** The alphabet also swaps D and E: a number is printed the conventional way if and only if it is not zero,
      whose text is empty, and none of its digits is 13, 14 or 19. */
  lemma ConventionalIff(n: nat, b: nat)
    requires 2 <= b <= 36
    ensures NumberText(n, b) == StandardText(n, b) <==> n > 0 && Conventional(Digits(n, b))
  {
    if n == 0 {
      assert |NumberText(n, b)| == 0;
    } else {
      SpelledAlikeIff(Digits(n, b));
    }
  }

  // ------------------------------------------------------------------ the code

  /** The buffer t holds the C string text: its characters and then a NUL. */
  predicate HoldsString(t: seq<char>, text: string) {
    && |text| < |t|
    && t[..|text|] == text
    && t[|text|] == '\0'
    && '\0' !in text
  }

  method StrLen(s: array<char>, ghost text: string) returns (len: nat)
    requires HoldsString(s[..], text)
    ensures len == |text|
  {
    len := 0;
    assert forall i :: 0 <= i < |text| ==> s[i] == text[i];
    while s[len] != '\0'
      invariant len <= |text|
      decreases s.Length - len
    {
      len := len + 1;
    }
  }

  /** strncat of one character at the end of the string. */
  method AppendChar(s: array<char>, c: char, ghost text: string)
    requires HoldsString(s[..], text) && |text| + 1 < s.Length && c != '\0'
    modifies s
    ensures HoldsString(s[..], text + [c])
    ensures forall i :: |text| + 1 < i < s.Length ==> s[i] == old(s[i])
  {
    var len := StrLen(s, text);
    s[len] := c;
    s[len + 1] := '\0';
  }

  /** The quotient for the recursive call, and the character to append after it. */
  method LastCharacter(n: nat, b: nat, ghost text: string) returns (q: nat, c: char)
    requires 2 <= b <= 36 && n > 0
    ensures q < n && c != '\0'
    ensures |Digits(n, b)| == |Digits(q, b)| + 1
    ensures text + NumberText(n, b) == (text + NumberText(q, b)) + [c]
  {
    Division(n, b);
    Alphabet(n % b);
    q, c := n / b, SELECTION[n % b];
    assert NumberText(n, b) == NumberText(q, b) + [c];
  }

  /** anybase keeps what the buffer held and appends the number's text; zero appends nothing.  Nothing
      behind the new terminator is touched. */
  method Anybase(n: nat, b: nat, s: array<char>, ghost text: string)
    requires 2 <= b <= 36
    requires HoldsString(s[..], text) && |text| + |Digits(n, b)| < s.Length
    modifies s
    ensures HoldsString(s[..], text + NumberText(n, b))
    ensures forall i :: |text| + |Digits(n, b)| < i < s.Length ==> s[i] == old(s[i])
    decreases n
  {
    if n == 0 {
      assert text + NumberText(n, b) == text;
    } else {
      var q, c := LastCharacter(n, b, text);
      Anybase(q, b, s, text);
      AppendChar(s, c, text + NumberText(q, b));
    }
  }

  const BUFFER_SIZE := 200

  /** main's use: any nonnegative int fits the zeroed buffer, whatever the base. */
  method Convert(n: nat, b: nat) returns (s: array<char>)
    requires 2 <= b <= 36 && n < 0x8000_0000
    ensures HoldsString(s[..], NumberText(n, b))
  {
    s := new char[BUFFER_SIZE](_ => '\0');
    FitsIn31(n, b);
    Anybase(n, b, s, []);
    assert [] + NumberText(n, b) == NumberText(n, b);
  }
}
