/**
 * The C library behaviour the TecnicoFS sources rely on, stated on Dafny strings:
 * NUL-terminated buffers (strlen, strncmp), atoi, snprintf("%d") and
 * sscanf("%c %s %s") as the command parsers use it.
 */
module CLib {
  import opened Common

  /** isspace() in the C locale. */
  predicate IsSpace(c: char) {
    c == ' ' || c == '\t' || c == '\n' || c == '\U{B}' || c == '\U{C}' || c == '\r'
  }

  predicate IsDigit(c: char) { '0' <= c <= '9' }

  /** A word as %s reads it: non-empty, no white space, no NUL. */
  predicate IsWord(w: string) {
    |w| > 0 && forall i :: 0 <= i < |w| ==> !IsSpace(w[i]) && w[i] != '\0'
  }

  /** The C string held by a buffer: every character before the first NUL (strlen is its length). */
  function CStr(s: string): (r: string)
    ensures |r| <= |s| && r == s[..|r|]
    ensures '\0' !in r
    ensures |r| < |s| ==> s[|r|] == '\0'
  {
    if s == [] then []
    else if s[0] == '\0' then []
    else [s[0]] + CStr(s[1..])
  }

  lemma {:induction false} CStrOfPlain(s: string)
    requires '\0' !in s
    ensures CStr(s) == s
  {
    if s != [] {
      assert s[0] != '\0';
      assert '\0' !in s[1..] by {
        forall i | 0 <= i < |s[1..]| ensures s[1..][i] != '\0' { assert s[1..][i] == s[i + 1]; }
      }
      CStrOfPlain(s[1..]);
    }
  }

  /** snprintf(buf, size, ...) stores at most size - 1 characters of what it formats. */
  function Bounded(s: string, size: nat): (r: string)
    requires size >= 1
    ensures |r| == Min(|s|, size - 1) && r == s[..|r|]
  {
    if |s| < size then s else s[..size - 1]
  }

  // ---------------------------------------------------------------- numbers

  function DigitChar(d: nat): char
    requires d < 10
  {
    ['0', '1', '2', '3', '4', '5', '6', '7', '8', '9'][d]
  }

  function DigitOf(c: char): (d: nat)
    requires IsDigit(c)
    ensures d < 10
  {
    (c as int - '0' as int) as nat
  }

  /** The decimal digits of a natural number, most significant first, no leading zero. */
  function NatToString(n: nat): (r: string)
    decreases n
  {
    if n < 10 then [DigitChar(n)] else NatToString(n / 10) + [DigitChar(n % 10)]
  }

  /** snprintf("%d", n). */
  function Itoa(n: int): string {
    if n < 0 then "-" + NatToString(-n) else NatToString(n)
  }

  /** The longest prefix of s made of decimal digits. */
  function LeadingDigits(s: string): (r: string)
    ensures |r| <= |s| && r == s[..|r|]
    ensures forall i :: 0 <= i < |r| ==> IsDigit(r[i])
    ensures |r| < |s| ==> !IsDigit(s[|r|])
  {
    if s == [] || !IsDigit(s[0]) then [] else [s[0]] + LeadingDigits(s[1..])
  }

  /** The value of a string of decimal digits. */
  function DigitsValue(s: string): nat
    requires forall i :: 0 <= i < |s| ==> IsDigit(s[i])
  {
    if s == [] then 0 else DigitsValue(s[..|s| - 1]) * 10 + DigitOf(s[|s| - 1])
  }

  /** The white-space characters at the front of s removed. */
  function SkipSpace(s: string): (r: string)
    ensures r == [] || !IsSpace(r[0])
  {
    s[SpaceCount(s)..]
  }

  /** The number of white-space characters at the front of s. */
  function SpaceCount(s: string): (n: nat)
    ensures n <= |s|
    ensures n < |s| ==> !IsSpace(s[n])
  {
    if s != [] && IsSpace(s[0]) then 1 + SpaceCount(s[1..]) else 0
  }

  /**
   * atoi(): leading white space, an optional sign, then the longest run of digits;
   * 0 when there are no digits. (Overflow is undefined in C and not modelled.)
   */
  function Atoi(s: string): int {
    var t := SkipSpace(CStr(s));
    if t != [] && t[0] == '-' then 0 - DigitsValue(LeadingDigits(t[1..]))
    else if t != [] && t[0] == '+' then DigitsValue(LeadingDigits(t[1..]))
    else DigitsValue(LeadingDigits(t))
  }

  lemma {:induction false} NatToStringDigits(n: nat)
    decreases n
    ensures |NatToString(n)| > 0
    ensures forall i :: 0 <= i < |NatToString(n)| ==> IsDigit(NatToString(n)[i])
    ensures DigitsValue(NatToString(n)) == n
  {
    var s := NatToString(n);
    if n < 10 {
      DigitRoundTrip(n);
      assert s[..0] == [];
    } else {
      var q, d := n / 10, n % 10;
      NatToStringDigits(q);
      DigitRoundTrip(d);
      assert s == NatToString(q) + [DigitChar(d)];
      assert s[..|s| - 1] == NatToString(q);
      assert n == q * 10 + d;
    }
  }

  /** The character of a digit is a digit of that value. */
  lemma DigitRoundTrip(d: nat)
    requires d < 10
    ensures IsDigit(DigitChar(d)) && DigitOf(DigitChar(d)) == d
  {
  }

  lemma {:induction false} LeadingDigitsOfDigits(s: string)
    requires forall i :: 0 <= i < |s| ==> IsDigit(s[i])
    ensures LeadingDigits(s) == s
  {
    if s != [] {
      LeadingDigitsOfDigits(s[1..]);
    }
  }

  predicate AllDigits(s: string) {
    forall i :: 0 <= i < |s| ==> IsDigit(s[i])
  }

  lemma AllDigitsPlain(s: string)
    requires AllDigits(s)
    ensures CStr(s) == s
  {
    assert '\0' !in s by {
      forall i | 0 <= i < |s| ensures s[i] != '\0' { assert IsDigit(s[i]); }
    }
    CStrOfPlain(s);
  }

  lemma AtoiOfDigits(s: string)
    requires s != [] && AllDigits(s)
    ensures Atoi(s) == DigitsValue(s)
  {
    AllDigitsPlain(s);
    LeadingDigitsOfDigits(s);
    assert IsDigit(s[0]);
  }

  lemma AtoiOfNegated(s: string)
    requires s != [] && AllDigits(s)
    ensures Atoi("-" + s) == 0 - DigitsValue(s)
  {
    var m := "-" + s;
    assert '\0' !in m by {
      forall i | 0 <= i < |m| ensures m[i] != '\0' {
        if i > 0 { assert m[i] == s[i - 1]; assert IsDigit(s[i - 1]); }
      }
    }
    CStrOfPlain(m);
    assert SkipSpace(m) == m;
    assert m[1..] == s;
    LeadingDigitsOfDigits(s);
  }

  /** Every integer survives the trip through snprintf("%d") and back through atoi(). */
  lemma AtoiItoa(n: int)
    ensures Atoi(Itoa(n)) == n
  {
    var m: nat := if n < 0 then -n else n;
    NatToStringDigits(m);
    if n < 0 {
      AtoiOfNegated(NatToString(m));
    } else {
      AtoiOfDigits(NatToString(m));
    }
  }

  /** The reply codes the server writes with snprintf("%d") are these short strings. */
  lemma ItoaSmall(n: int)
    requires -11 <= n <= 9
    ensures n >= 0 ==> Itoa(n) == [DigitChar(n)]
    ensures n < 0 ==> Itoa(n) == ['-'] + NatToString(-n)
    ensures |Itoa(n)| <= 3
  {
  }

  // ---------------------------------------------------------------- sscanf

  /** The longest prefix of s holding no white space (what %s copies, NUL excluded). */
  function Word(s: string): (r: string)
    ensures |r| <= |s| && r == s[..|r|]
    ensures |r| < |s| ==> IsSpace(s[|r|])
    ensures s != [] && !IsSpace(s[0]) ==> |r| > 0
  {
    if s == [] || IsSpace(s[0]) then [] else [s[0]] + Word(s[1..])
  }

  /** The white-space separated words of s, in order. */
  function Words(s: string): (r: seq<string>)
    decreases |s|
  {
    var t := SkipSpace(s);
    if t == [] then [] else
      var w := Word(t);
      [w] + Words(t[|w|..])
  }

  /**
   * What sscanf(line, "%c %s ... %s") with n conversions of %s does to a C string:
   * the count it returns (-1 for an empty string), the character %c stores and the
   * words the %s conversions store, in order. Outputs it does not reach keep their
   * previous contents, so the caller decides what they hold.
   */
  datatype Scan = Scan(count: int, token: char, args: seq<string>)

  function ScanLine(line: string, n: nat): (r: Scan)
    ensures CStr(line) == [] <==> r.count == -1
    ensures r.count == -1 ==> r.args == []
    ensures r.count != -1 ==> r.token == CStr(line)[0] && r.count == 1 + |r.args| && |r.args| <= n
  {
    var t := CStr(line);
    if t == [] then Scan(-1, '\0', []) else
      var ws := Words(t[1..]);
      var k := Min(n, |ws|);
      Scan(1 + k, t[0], ws[..k])
  }

  lemma {:induction false} WordOfWord(w: string, rest: string)
    requires IsWord(w)
    requires rest == [] || IsSpace(rest[0])
    ensures Word(w + rest) == w
  {
    if |w| > 1 {
      assert (w + rest)[1..] == w[1..] + rest;
      WordOfWord(w[1..], rest);
    } else {
      assert (w + rest)[1..] == rest;
    }
  }

  lemma SkipSpaceOfWord(s: string)
    requires s != [] && !IsSpace(s[0])
    ensures SkipSpace(s) == s
  {
  }

  /** A word followed by one space and more text scans as that word and the words of the rest. */
  lemma WordsCons(w: string, rest: string)
    requires IsWord(w)
    ensures Words(w + " " + rest) == [w] + Words(rest)
  {
    var s := w + " " + rest;
    SkipSpaceOfWord(s);
    assert s == w + (" " + rest);
    WordOfWord(w, " " + rest);
    assert s[|w|..] == " " + rest;
    assert SkipSpace(" " + rest) == SkipSpace(rest) by { assert (" " + rest)[1..] == rest; }
  }

  /** Leading white space does not change the words. */
  lemma WordsLeadingSpace(s: string)
    ensures Words(" " + s) == Words(s)
  {
    assert (" " + s)[1..] == s;
    assert SkipSpace(" " + s) == SkipSpace(s);
  }

  /** "<c> <w>" scans as the character c and the one word w. */
  lemma ScanOneWord(c: char, w: string, n: nat)
    requires c != '\0' && IsWord(w) && n >= 1
    ensures ScanLine([c] + " " + w, n) == Scan(2, c, [w])
  {
    var line := [c] + " " + w;
    IsWordNoNul(w);
    assert '\0' !in line by {
      forall i | 0 <= i < |line| ensures line[i] != '\0' {
        if i >= 2 { assert line[i] == w[i - 2]; }
      }
    }
    CStrOfPlain(line);
    assert line[1..] == " " + w;
    WordsLeadingSpace(w);
    WordsSingle(w);
  }

  /** "<c> <w1> <w2>" scans as the character c and the two words. */
  lemma ScanTwoWords(c: char, w1: string, w2: string)
    requires c != '\0' && IsWord(w1) && IsWord(w2)
    ensures ScanLine([c] + " " + w1 + " " + w2, 2) == Scan(3, c, [w1, w2])
  {
    var line := [c] + " " + w1 + " " + w2;
    IsWordNoNul(w1);
    IsWordNoNul(w2);
    assert '\0' !in line by {
      forall i | 0 <= i < |line| ensures line[i] != '\0' {
        if 2 <= i < 2 + |w1| { assert line[i] == w1[i - 2]; }
        if i >= 3 + |w1| { assert line[i] == w2[i - 3 - |w1|]; }
      }
    }
    CStrOfPlain(line);
    assert line[1..] == " " + (w1 + " " + w2);
    WordsLeadingSpace(w1 + " " + w2);
    WordsCons(w1, w2);
    WordsSingle(w2);
  }

  lemma WordsSingle(w: string)
    requires IsWord(w)
    ensures Words(w) == [w]
  {
    SkipSpaceOfWord(w);
    WordOfWord(w, []);
    assert w + [] == w;
    assert w[|w|..] == [];
  }

  lemma IsWordNoNul(w: string)
    requires IsWord(w)
    ensures '\0' !in w
  {
    assert forall i :: 0 <= i < |w| ==> w[i] != '\0';
  }

  lemma NatToStringIsWord(n: nat)
    ensures IsWord(NatToString(n))
  {
    NatToStringDigits(n);
  }

  lemma ItoaIsWord(n: int)
    ensures IsWord(Itoa(n))
  {
    var m: nat := if n < 0 then -n else n;
    NatToStringIsWord(m);
    if n < 0 {
      forall i | 0 <= i < |Itoa(n)| ensures !IsSpace(Itoa(n)[i]) && Itoa(n)[i] != '\0' {
        if i > 0 { assert Itoa(n)[i] == NatToString(m)[i - 1]; }
      }
    }
  }
}
