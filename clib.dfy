/** The parts of the C library the client relies on, over text as `seq<char>`:
    the NUL-terminated view of a buffer, `strstr`, `strrchr`, `isspace`,
    `atoi` and the `%d` conversion of `printf`. */
module CLib {
  import opened Wrappers

  const NUL: char := '\0'

  /** `isspace` in the "C" locale: space, \t, \n, \v, \f and \r. */
  predicate IsSpace(c: char) {
    c == ' ' || c == '\t' || c == '\n' || c == '\U{B}' || c == '\U{C}' || c == '\r'
  }

  predicate IsDigit(c: char) {
    '0' <= c <= '9'
  }

  predicate AllDigits(s: seq<char>) {
    forall i :: 0 <= i < |s| ==> IsDigit(s[i])
  }

  // ---------------------------------------------------------------------------
  // NUL-terminated strings

  /** The C string held by a buffer: its characters up to the first NUL, or all
      of them when the buffer holds no NUL. */
  function CString(s: seq<char>): (r: seq<char>)
    ensures |r| <= |s| && r == s[..|r|]
    ensures NUL !in r
    ensures |r| < |s| ==> s[|r|] == NUL
  {
    if s == [] || s[0] == NUL then [] else [s[0]] + CString(s[1..])
  }

  /** The C string of a buffer is fixed by where its first NUL is. */
  lemma {:induction false} CStringUpTo(s: seq<char>, n: nat)
    requires n <= |s|
    requires forall j :: 0 <= j < n ==> s[j] != NUL
    requires n == |s| || s[n] == NUL
    ensures CString(s) == s[..n]
  {
    if n > 0 {
      CStringUpTo(s[1..], n - 1);
    }
  }

  /** A text without NUL is its own C string. */
  lemma CStringOfText(s: seq<char>)
    requires NUL !in s
    ensures CString(s) == s
  {
    CStringUpTo(s, |s|);
  }

  /** NUL padding after a text does not change the C string it holds. */
  lemma CStringPadded(s: seq<char>, pad: seq<char>)
    requires pad != [] && forall j :: 0 <= j < |pad| ==> pad[j] == NUL
    ensures CString(s + pad) == CString(s)
  {
    var c := CString(s);
    CStringUpTo(s + pad, |c|);
  }

  /** Reads the C string that starts at `a[start]`, as `strdup` or `printf("%s")` do. */
  method ReadCString(a: array<char>, start: nat) returns (s: seq<char>)
    requires start <= a.Length
    ensures s == CString(a[start..])
  {
    var i := start;
    while i < a.Length && a[i] != NUL
      invariant start <= i <= a.Length
      invariant forall j :: start <= j < i ==> a[j] != NUL
    {
      i := i + 1;
    }
    s := a[start..i];
    CStringUpTo(a[start..], i - start);
  }

  // ---------------------------------------------------------------------------
  // strstr and strrchr

  /** `needle` occurs in `hay` starting at index `i`. */
  predicate OccursAt(hay: seq<char>, needle: seq<char>, i: int) {
    0 <= i && i + |needle| <= |hay| && hay[i..i + |needle|] == needle
  }

  /** `strstr(hay, needle) != NULL`, tried at each start position in turn. */
  function Contains(hay: seq<char>, needle: seq<char>): bool
    decreases |hay|
  {
    if |hay| < |needle| then false
    else hay[..|needle|] == needle || Contains(hay[1..], needle)
  }

  /** `strstr` finds `needle` exactly when it occurs somewhere in `hay`. */
  lemma {:induction false} ContainsIff(hay: seq<char>, needle: seq<char>)
    ensures Contains(hay, needle) <==> exists i :: OccursAt(hay, needle, i)
    decreases |hay|
  {
    if |hay| < |needle| {
      assert forall i :: !OccursAt(hay, needle, i);
    } else if hay[..|needle|] == needle {
      assert OccursAt(hay, needle, 0);
    } else {
      ContainsIff(hay[1..], needle);
      forall i | OccursAt(hay[1..], needle, i)
        ensures OccursAt(hay, needle, i + 1)
      {
        assert hay[1..][i..i + |needle|] == hay[i + 1..i + 1 + |needle|];
      }
      forall i | 1 <= i && OccursAt(hay, needle, i)
        ensures OccursAt(hay[1..], needle, i - 1)
      {
        assert hay[1..][i - 1..i - 1 + |needle|] == hay[i..i + |needle|];
      }
    }
  }

  /** `strrchr(s, c)` for a character `c` other than NUL: the index of the
      last `c` in `s`, if any. (For NUL, `strrchr` finds the terminator, which
      this function, given the text without it, does not see.) */
  function LastIndexOf(s: seq<char>, c: char): (r: Option<nat>)
    ensures r.None? <==> c !in s
    ensures r.Some? ==> r.value < |s| && s[r.value] == c && c !in s[r.value + 1..]
  {
    if s == [] then None
    else if s[|s| - 1] == c then Some(|s| - 1)
    else LastIndexOf(s[..|s| - 1], c)
  }

  // ---------------------------------------------------------------------------
  // atoi

  /** The text after the leading white space. */
  function SkipSpace(s: seq<char>): (r: seq<char>)
    ensures |r| <= |s| && r == s[|s| - |r|..]
    ensures forall i :: 0 <= i < |s| - |r| ==> IsSpace(s[i])
    ensures r == [] || !IsSpace(r[0])
  {
    if s != [] && IsSpace(s[0]) then SkipSpace(s[1..]) else s
  }

  /** The longest run of characters other than white space at the front of `s`. */
  function Word(s: seq<char>): (r: seq<char>)
    ensures |r| <= |s| && r == s[..|r|]
    ensures forall i :: 0 <= i < |r| ==> !IsSpace(r[i])
    ensures |r| == |s| || IsSpace(s[|r|])
  {
    if s != [] && !IsSpace(s[0]) then [s[0]] + Word(s[1..]) else []
  }

  /** The text a `%s` conversion of `sscanf` stores: the first white-space
      delimited word. */
  function FirstWord(s: seq<char>): seq<char> {
    Word(SkipSpace(s))
  }

  /** The first word of a word followed by white space, or by nothing. */
  lemma {:induction false} WordOf(w: seq<char>, rest: seq<char>)
    requires forall i :: 0 <= i < |w| ==> !IsSpace(w[i])
    requires rest == [] || IsSpace(rest[0])
    ensures Word(w + rest) == w
  {
    if w != [] {
      assert (w + rest)[1..] == w[1..] + rest;
      WordOf(w[1..], rest);
    }
  }

  /** `%s` stores a word that starts the text and is followed by white space. */
  lemma FirstWordOf(w: seq<char>, rest: seq<char>)
    requires w != [] && forall i :: 0 <= i < |w| ==> !IsSpace(w[i])
    requires rest == [] || IsSpace(rest[0])
    ensures FirstWord(w + rest) == w
  {
    assert (w + rest)[0] == w[0];
    assert SkipSpace(w + rest) == w + rest;
    WordOf(w, rest);
  }

  /** The longest run of decimal digits at the front of `s`. */
  function DigitRun(s: seq<char>): (r: seq<char>)
    ensures |r| <= |s| && r == s[..|r|] && AllDigits(r)
    ensures |r| == |s| || !IsDigit(s[|r|])
  {
    if s != [] && IsDigit(s[0]) then [s[0]] + DigitRun(s[1..]) else []
  }

  /** The number a run of decimal digits denotes, most significant first. */
  function DigitValue(ds: seq<char>): nat
    requires AllDigits(ds)
  {
    if ds == [] then 0
    else 10 * DigitValue(ds[..|ds| - 1]) + (ds[|ds| - 1] as int - '0' as int)
  }

  /** `atoi`: optional white space, an optional sign, then the longest run of
      digits; anything after the digits is ignored and no digits give 0. */
  function Atoi(s: seq<char>): int {
    var t := SkipSpace(s);
    if t != [] && t[0] == '-' then -(DigitValue(DigitRun(t[1..])) as int)
    else if t != [] && t[0] == '+' then DigitValue(DigitRun(t[1..]))
    else DigitValue(DigitRun(t))
  }

  // ---------------------------------------------------------------------------
  // %d

  function DigitChar(d: nat): (c: char)
    requires d < 10
    ensures IsDigit(c) && c as int - '0' as int == d
  {
    ('0' as int + d) as char
  }

  /** The decimal digits of `n`, without leading zeros. */
  function Digits(n: nat): (r: seq<char>)
    ensures |r| >= 1 && AllDigits(r)
    ensures r[0] == '0' ==> n == 0
  {
    if n < 10 then [DigitChar(n)] else Digits(n / 10) + [DigitChar(n % 10)]
  }

  /** `printf("%d", v)`: a minus sign for a negative value, then its digits. */
  function Decimal(v: int): seq<char> {
    if v < 0 then ['-'] + Digits(-v) else Digits(v)
  }

  function Abs(v: int): nat {
    if v < 0 then -v else v
  }

  function Pow10(k: nat): nat {
    if k == 0 then 1 else 10 * Pow10(k - 1)
  }

  /** The digits of `n` denote `n`. */
  lemma {:induction false} DigitValueOfDigits(n: nat)
    ensures DigitValue(Digits(n)) == n
  {
    if n >= 10 {
      DigitValueOfDigits(n / 10);
      var d := Digits(n / 10) + [DigitChar(n % 10)];
      assert d[..|d| - 1] == Digits(n / 10);
    }
  }

  /** A number below 10^k has at most k digits. */
  lemma {:induction false} DigitsLength(n: nat, k: nat)
    requires 1 <= k && n < Pow10(k)
    ensures |Digits(n)| <= k
  {
    if n >= 10 {
      assert n / 10 < Pow10(k - 1);
      DigitsLength(n / 10, k - 1);
    }
  }

  /** The digit run of digits followed by a non-digit is those digits. */
  lemma {:induction false} DigitRunOf(ds: seq<char>, rest: seq<char>)
    requires AllDigits(ds)
    requires rest == [] || !IsDigit(rest[0])
    ensures DigitRun(ds + rest) == ds
  {
    if ds != [] {
      assert (ds + rest)[1..] == ds[1..] + rest;
      DigitRunOf(ds[1..], rest);
    }
  }

  /** `atoi` of a text that starts with a digit reads its digit run. */
  lemma AtoiUnsigned(s: seq<char>)
    requires s != [] && IsDigit(s[0])
    ensures Atoi(s) == DigitValue(DigitRun(s))
  {
    assert !IsSpace(s[0]);
    assert SkipSpace(s) == s;
  }

  /** `atoi` of a text that starts with '-' negates the digit run after it. */
  lemma AtoiNegative(s: seq<char>)
    requires s != [] && s[0] == '-'
    ensures Atoi(s) == -(DigitValue(DigitRun(s[1..])) as int)
  {
    assert !IsSpace(s[0]);
    assert SkipSpace(s) == s;
  }

  /** `atoi` reads back the digits of `n`, whatever non-digit text follows them. */
  lemma AtoiOfDigits(n: nat, rest: seq<char>)
    requires rest == [] || !IsDigit(rest[0])
    ensures Atoi(Digits(n) + rest) == n
  {
    var ds := Digits(n);
    DigitValueOfDigits(n);
    DigitRunOf(ds, rest);
    assert (ds + rest)[0] == ds[0];
    AtoiUnsigned(ds + rest);
  }

  /** `atoi` reads back a minus sign and the digits of `n` as `-n`. */
  lemma AtoiOfSignedDigits(n: nat, rest: seq<char>)
    requires rest == [] || !IsDigit(rest[0])
    ensures Atoi(['-'] + (Digits(n) + rest)) == -(n as int)
  {
    var ds := Digits(n);
    var s := ['-'] + (ds + rest);
    DigitValueOfDigits(n);
    DigitRunOf(ds, rest);
    assert s[1..] == ds + rest;
    AtoiNegative(s);
  }

  /** `atoi` reads back what `%d` writes, whatever non-digit text follows it. */
  lemma AtoiOfDecimal(v: int, rest: seq<char>)
    requires rest == [] || !IsDigit(rest[0])
    ensures Atoi(Decimal(v) + rest) == v
  {
    var n: nat := Abs(v);
    if v < 0 {
      assert Decimal(v) == ['-'] + Digits(n);
      assert Decimal(v) + rest == ['-'] + (Digits(n) + rest);
      AtoiOfSignedDigits(n, rest);
    } else {
      assert Decimal(v) == Digits(n);
      AtoiOfDigits(n, rest);
    }
  }

  /** `%d` never writes the same text for two values. */
  lemma DecimalInjective(v: int, w: int)
    requires Decimal(v) == Decimal(w)
    ensures v == w
  {
    AtoiOfDecimal(v, []);
    AtoiOfDecimal(w, []);
  }
}
