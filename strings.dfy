/**
 * The few java.lang.String and java.nio.file.Path operations the library relies on,
 * stated over Dafny strings. Case mapping is ASCII only.
 */
module Strings {

  /** Character.toLowerCase restricted to ASCII letters. */
  function LowerChar(c: char): (r: char)
    ensures 'A' <= c <= 'Z' ==> 'a' <= r <= 'z' && r as int - c as int == 32
    ensures !('A' <= c <= 'Z') ==> r == c
  {
    if 'A' <= c <= 'Z' then (c as int + 32) as char else c
  }

  predicate IsLowerCase(s: string)
  {
    forall i :: 0 <= i < |s| ==> !('A' <= s[i] <= 'Z')
  }

  /** String.startsWith. */
  predicate StartsWith(s: string, prefix: string)
  {
    |prefix| <= |s| && s[..|prefix|] == prefix
  }

  /** String.contains: part starts at some position of s. */
  predicate Contains(s: string, part: string)
    decreases |s|
  {
    StartsWith(s, part) || (|s| > 0 && Contains(s[1..], part))
  }

  /** An occurrence at any position makes Contains hold. */
  lemma {:induction false} ContainsAt(s: string, part: string, i: nat)
    requires i + |part| <= |s| && s[i..i + |part|] == part
    ensures Contains(s, part)
    decreases i
  {
    if i == 0 {
      assert StartsWith(s, part);
    } else {
      assert s[1..][i - 1..i - 1 + |part|] == s[i..i + |part|];
      ContainsAt(s[1..], part, i - 1);
    }
  }

  /** A non-empty part whose first character never occurs in s is not contained in it. */
  lemma {:induction false} NotContainedWithoutFirstChar(s: string, part: string)
    requires |part| > 0 && part[0] !in s
    ensures !Contains(s, part)
    decreases |s|
  {
    if |part| <= |s| {
      assert s[..|part|][0] == s[0];
    }
    if |s| > 0 {
      assert forall c :: c in s[1..] ==> c in s;
      NotContainedWithoutFirstChar(s[1..], part);
    }
  }

  /** String.toLowerCase: maps every character, keeps the length. */
  function ToLower(s: string): (r: string)
    ensures |r| == |s|
    ensures forall i :: 0 <= i < |s| ==> r[i] == LowerChar(s[i])
  {
    if s == [] then [] else [LowerChar(s[0])] + ToLower(s[1..])
  }

  lemma ToLowerIsLowerCase(s: string)
    ensures IsLowerCase(ToLower(s))
    ensures ToLower(ToLower(s)) == ToLower(s)
  {
    var t := ToLower(s);
    assert forall i :: 0 <= i < |t| ==> ToLower(t)[i] == t[i];
  }

  lemma LowerCaseIsFixed(s: string)
    requires IsLowerCase(s)
    ensures ToLower(s) == s
  {
    assert forall i :: 0 <= i < |s| ==> ToLower(s)[i] == s[i];
  }

  /** String.lastIndexOf(char): the last position holding c, or -1. */
  function LastIndexOf(s: string, c: char): (r: int)
    ensures -1 <= r < |s|
    ensures r >= 0 ==> s[r] == c
    ensures forall j :: r < j < |s| ==> s[j] != c
  {
    if |s| == 0 then -1
    else if s[|s| - 1] == c then |s| - 1
    else LastIndexOf(s[..|s| - 1], c)
  }

  function DigitChar(d: nat): (r: char)
    requires d < 10
    ensures '0' <= r <= '9' && r as int - '0' as int == d
  {
    ('0' as int + d) as char
  }

  predicate IsDigits(s: string)
  {
    forall i :: 0 <= i < |s| ==> '0' <= s[i] <= '9'
  }

  /** String.valueOf(int) for a non-negative value: decimal digits, no leading zero. */
  function DecimalString(n: nat): (r: string)
    ensures |r| >= 1 && IsDigits(r)
    ensures r[0] == '0' ==> n == 0 && r == "0"
    decreases n
  {
    if n < 10 then [DigitChar(n)] else DecimalString(n / 10) + [DigitChar(n % 10)]
  }

  /** The number a string of decimal digits denotes (the reference for DecimalString). */
  function DecimalValue(s: string): nat
    requires IsDigits(s)
  {
    if s == [] then 0 else DecimalValue(s[..|s| - 1]) * 10 + (s[|s| - 1] as int - '0' as int)
  }

  lemma {:induction false} DecimalRoundTrip(n: nat)
    ensures DecimalValue(DecimalString(n)) == n
    decreases n
  {
    if n >= 10 {
      var prefix := DecimalString(n / 10);
      var s := prefix + [DigitChar(n % 10)];
      assert s[..|s| - 1] == prefix;
      DecimalRoundTrip(n / 10);
    }
  }

  lemma DecimalStringInjective(m: nat, n: nat)
    requires DecimalString(m) == DecimalString(n)
    ensures m == n
  {
    DecimalRoundTrip(m);
    DecimalRoundTrip(n);
  }

  /** The first index at or after i that String.trim keeps (white space is <= U+0020). */
  function TrimStart(s: string, i: nat): (a: nat)
    requires i <= |s|
    ensures i <= a <= |s| && (a == |s| || s[a] > ' ')
    ensures forall k :: i <= k < a ==> s[k] <= ' '
    decreases |s| - i
  {
    if i == |s| || s[i] > ' ' then i else TrimStart(s, i + 1)
  }

  /** The end (exclusive) of the kept part, searching down from j to a. */
  function TrimEnd(s: string, a: nat, j: nat): (b: nat)
    requires a <= j <= |s|
    ensures a <= b <= j && (b == a || s[b - 1] > ' ')
    ensures forall k :: b <= k < j ==> s[k] <= ' '
    decreases j
  {
    if j == a || s[j - 1] > ' ' then j else TrimEnd(s, a, j - 1)
  }

  /**
   * String.trim: the infix s[a..b] left after removing white space at both ends;
   * every removed character is white space and the result neither starts nor ends
   * with one.
   */
  function Trim(s: string): (r: string)
    ensures exists a, b {:trigger s[a..b]} ::
              (0 <= a <= b <= |s| && r == s[a..b]
               && (forall k :: 0 <= k < a ==> s[k] <= ' ')
               && (forall k :: b <= k < |s| ==> s[k] <= ' '))
    ensures r == [] || (r[0] > ' ' && r[|r| - 1] > ' ')
  {
    var a := TrimStart(s, 0);
    var b := TrimEnd(s, a, |s|);
    s[a..b]
  }

  /** java.nio.file.Path, as its string form. */
  type Path = string

  /** Path.getFileName().toString(): the text after the last separator. */
  function FileName(p: Path): (r: string)
    ensures '/' !in r
    ensures |r| <= |p| && r == p[|p| - |r|..]
    ensures |r| < |p| ==> p[|p| - |r| - 1] == '/'
  {
    var k := LastIndexOf(p, '/');
    var r := p[k + 1..];
    assert forall j :: 0 <= j < |r| ==> r[j] != '/' by {
      forall j | 0 <= j < |r| ensures r[j] != '/' {
        assert r[j] == p[k + 1 + j];
      }
    }
    r
  }

  /** Path.resolve(name).toString() for a single-component name. */
  function Resolve(dir: Path, name: string): Path
  {
    if dir == [] then name
    else if dir[|dir| - 1] == '/' then dir + name
    else dir + "/" + name
  }

  lemma FileNameOfResolve(dir: Path, name: string)
    requires '/' !in name
    ensures FileName(Resolve(dir, name)) == name
  {
    var p := Resolve(dir, name);
    if dir == [] {
      assert LastIndexOf(p, '/') == -1;
    } else {
      var pre := p[..|p| - |name|];
      assert p == pre + name;
      assert p[|pre| - 1] == '/';
      assert forall j :: |pre| <= j < |p| ==> p[j] == name[j - |pre|];
      assert LastIndexOf(p, '/') == |pre| - 1;
    }
  }
}
