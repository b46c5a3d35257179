/**
  The JavaScript built-ins the version engine is written with, stated over
  Dafny strings: String.prototype.trim / replace / split / includes /
  substring, Array.prototype.join, parseInt and Number.prototype.toString.
  One Dafny char stands for one UTF-16 code unit of the JavaScript string.
 */
module Js {

  /** A value that JavaScript may leave `null`. */
  datatype Nullable<+T> = Null | Some(value: T)

  /** The outcome of a computation that may throw; `error` is the thrown message. */
  datatype Result<+T> = Ok(value: T) | Err(error: string)

  /** A JavaScript number as this engine produces it: an integer or NaN. */
  datatype Number = Finite(value: int) | NaN

  // ---------------------------------------------------------------------------
  // Characters

  predicate IsDigit(c: char) { '0' <= c <= '9' }

  /** The class `[a-zA-Z0-9]`. */
  predicate IsAsciiAlnum(c: char) { IsDigit(c) || 'a' <= c <= 'z' || 'A' <= c <= 'Z' }

  /** ECMAScript LineTerminator: the characters a regex `.` does not match. */
  predicate IsLineTerminator(c: char) {
    c == '\n' || c == '\r' || c == '\U{2028}' || c == '\U{2029}'
  }

  /** ECMAScript WhiteSpace: TAB, VT, FF, ZWNBSP and the space separators (category Zs). */
  predicate IsWhiteSpace(c: char) {
    c == '\t' || c == '\U{000B}' || c == '\U{000C}' || c == '\U{FEFF}' ||
    c == ' ' || c == '\U{00A0}' || c == '\U{1680}' || '\U{2000}' <= c <= '\U{200A}' ||
    c == '\U{202F}' || c == '\U{205F}' || c == '\U{3000}'
  }

  /** The characters `trim` and `parseInt` skip. */
  predicate IsTrimmable(c: char) { IsWhiteSpace(c) || IsLineTerminator(c) }

  // ---------------------------------------------------------------------------
  // trim

  function TrimStart(s: string): (r: string)
    ensures |r| <= |s| && r == s[|s| - |r|..]
    ensures forall i :: 0 <= i < |s| - |r| ==> IsTrimmable(s[i])
    ensures r == [] || !IsTrimmable(r[0])
    decreases |s|
  {
    if |s| > 0 && IsTrimmable(s[0]) then TrimStart(s[1..]) else s
  }

  function TrimEnd(s: string): (r: string)
    ensures |r| <= |s| && r == s[..|r|]
    ensures forall i :: |r| <= i < |s| ==> IsTrimmable(s[i])
    ensures r == [] || !IsTrimmable(r[|r| - 1])
    decreases |s|
  {
    if |s| > 0 && IsTrimmable(s[|s| - 1]) then TrimEnd(s[..|s| - 1]) else s
  }

  /** A text holding a character trim keeps does not trim to nothing. */
  lemma TrimKeepsSolid(s: string, i: nat)
    requires i < |s| && !IsTrimmable(s[i])
    ensures Trim(s) != ""
  {
    var t := TrimStart(s);
    assert |s| - |t| <= i;
    assert t[i - (|s| - |t|)] == s[i];
  }

  /** String.prototype.trim: drops white space and line terminators at both ends. */
  function Trim(s: string): (r: string)
    ensures r == [] || (!IsTrimmable(r[0]) && !IsTrimmable(r[|r| - 1]))
    ensures (s == [] || (!IsTrimmable(s[0]) && !IsTrimmable(s[|s| - 1]))) ==> r == s
    ensures forall c :: c in r ==> c in s
  {
    var t := TrimStart(s);
    var r := TrimEnd(t);
    assert r == [] || r[0] == t[0];
    r
  }

  // ---------------------------------------------------------------------------
  // indexOf, includes

  /** `pat` occurs in `s` starting at index `i`. */
  predicate OccursAt(s: string, pat: string, i: int) {
    0 <= i && i + |pat| <= |s| && s[i..i + |pat|] == pat
  }

  function IndexOfFrom(s: string, pat: string, k: nat): (r: Nullable<nat>)
    ensures r.Some? ==> k <= r.value && OccursAt(s, pat, r.value)
    ensures r.Some? ==> forall j :: k <= j < r.value ==> !OccursAt(s, pat, j)
    ensures r.Null? ==> forall j :: k <= j ==> !OccursAt(s, pat, j)
    decreases |s| - k
  {
    if k + |pat| > |s| then Null
    else if s[k..k + |pat|] == pat then Some(k)
    else IndexOfFrom(s, pat, k + 1)
  }

  /** String.prototype.indexOf from position 0: the first occurrence, if any. */
  function IndexOf(s: string, pat: string): (r: Nullable<nat>)
    ensures r.Some? ==> OccursAt(s, pat, r.value) && forall j :: 0 <= j < r.value ==> !OccursAt(s, pat, j)
    ensures r.Null? ==> forall j :: !OccursAt(s, pat, j)
  {
    IndexOfFrom(s, pat, 0)
  }

  /** String.prototype.includes. */
  predicate Contains(s: string, pat: string) {
    IndexOf(s, pat).Some?
  }

  // ---------------------------------------------------------------------------
  // replace with a string pattern

  /**
    GetSubstitution for a match without capture groups: in the replacement,
    `$$` stands for `$`, `$&` for the matched text, `` $` `` for the text
    before the match and `$'` for the text after it; everything else
    (including `$1` and `$<`) is copied.
   */
  function Substitution(matched: string, str: string, position: nat, replacement: string): (r: string)
    requires position + |matched| <= |str|
    ensures '$' !in replacement ==> r == replacement
    decreases |replacement|
  {
    if |replacement| == 0 then ""
    else if replacement[0] == '$' && |replacement| >= 2 && replacement[1] == '$' then
      "$" + Substitution(matched, str, position, replacement[2..])
    else if replacement[0] == '$' && |replacement| >= 2 && replacement[1] == '&' then
      matched + Substitution(matched, str, position, replacement[2..])
    else if replacement[0] == '$' && |replacement| >= 2 && replacement[1] == '`' then
      str[..position] + Substitution(matched, str, position, replacement[2..])
    else if replacement[0] == '$' && |replacement| >= 2 && replacement[1] == '\'' then
      str[position + |matched|..] + Substitution(matched, str, position, replacement[2..])
    else
      [replacement[0]] + Substitution(matched, str, position, replacement[1..])
  }

  /**
    String.prototype.replace(pattern, replacement) with a string pattern:
    only the first occurrence is replaced; an empty pattern matches at index 0.
   */
  function Replace(s: string, pat: string, replacement: string): string {
    match IndexOf(s, pat)
    case Null => s
    case Some(i) => s[..i] + Substitution(pat, s, i, replacement) + s[i + |pat|..]
  }

  /** A pattern that does not occur leaves the string as it is. */
  lemma ReplaceAbsent(s: string, pat: string, replacement: string)
    requires forall j :: !OccursAt(s, pat, j)
    ensures Replace(s, pat, replacement) == s
  {
  }

  /**
    When no occurrence of `pat` starts inside `a`, the one right after `a`
    is the first, and a replacement without `$` is copied in verbatim;
    the text after that occurrence, later occurrences included, is untouched.
   */
  lemma {:induction false} ReplaceFirst(a: string, pat: string, b: string, replacement: string)
    requires forall j :: 0 <= j < |a| ==> !OccursAt(a + pat + b, pat, j)
    requires '$' !in replacement
    ensures Replace(a + pat + b, pat, replacement) == a + replacement + b
  {
    var s := a + pat + b;
    assert OccursAt(s, pat, |a|) by {
      assert s[|a|..|a| + |pat|] == pat;
    }
    assert IndexOf(s, pat) == Some(|a|);
    assert s[..|a|] == a;
    assert s[|a| + |pat|..] == b;
  }

  /** An empty pattern inserts the replacement in front of the string. */
  lemma ReplaceEmptyPattern(s: string, replacement: string)
    requires '$' !in replacement
    ensures Replace(s, "", replacement) == replacement + s
  {
    ReplaceFirst("", "", s, replacement);
    assert "" + "" + s == s;
  }

  // ---------------------------------------------------------------------------
  // substring, split, join

  /** String.prototype.substring(start) for a non-negative start. */
  function Substring(s: string, start: nat): (r: string)
    ensures start <= |s| ==> r == s[start..]
    ensures start > |s| ==> r == ""
  {
    if start <= |s| then s[start..] else ""
  }

  /** String.prototype.lastIndexOf with a one-character pattern: -1 when absent. */
  function LastIndexOf(s: string, c: char): (r: int)
    ensures -1 <= r < |s|
    ensures r >= 0 ==> s[r] == c && forall k :: r < k < |s| ==> s[k] != c
    ensures r == -1 ==> forall k :: 0 <= k < |s| ==> s[k] != c
    decreases |s|
  {
    if s == [] then -1
    else if s[|s| - 1] == c then |s| - 1
    else LastIndexOf(s[..|s| - 1], c)
  }

  /** String.prototype.split with a one-character separator. */
  function Split(s: string, sep: char): (r: seq<string>)
    ensures |r| >= 1
    decreases |s|
  {
    if |s| == 0 then [""]
    else
      var rest := Split(s[1..], sep);
      if s[0] == sep then [""] + rest else [[s[0]] + rest[0]] + rest[1..]
  }

  /** A string without the separator splits into itself alone. */
  lemma {:induction false} SplitNoSeparator(s: string, sep: char)
    requires sep !in s
    ensures Split(s, sep) == [s]
    decreases |s|
  {
    if |s| > 0 {
      SplitNoSeparator(s[1..], sep);
      assert [s[0]] + s[1..] == s;
    }
  }

  /** Splitting at one separator concatenates the splits of both sides. */
  lemma {:induction false} SplitConcat(a: string, b: string, sep: char)
    ensures Split(a + [sep] + b, sep) == Split(a, sep) + Split(b, sep)
    decreases |a|
  {
    if |a| == 0 {
      assert a + [sep] + b == [sep] + b;
      assert ([sep] + b)[1..] == b;
    } else {
      SplitConcat(a[1..], b, sep);
      assert a + [sep] + b == [a[0]] + (a[1..] + [sep] + b);
      assert [a[0]] + a[1..] == a;
      SplitCons(a[0], a[1..], a[1..] + [sep] + b, sep, Split(b, sep));
    }
  }

  /** Putting a character in front of two texts keeps a relation between their splits. */
  lemma SplitCons(c: char, t: string, u: string, sep: char, rb: seq<string>)
    requires Split(u, sep) == Split(t, sep) + rb
    ensures Split([c] + u, sep) == Split([c] + t, sep) + rb
  {
    assert ([c] + u)[0] == c && ([c] + u)[1..] == u;
    assert ([c] + t)[0] == c && ([c] + t)[1..] == t;
    var ra := Split(t, sep);
    if c == sep {
      assert Split([c] + u, sep) == [""] + (ra + rb);
      assert Split([c] + t, sep) == [""] + ra;
      AppendAssoc([""], ra, rb);
    } else {
      assert Split([c] + u, sep) == [[c] + (ra + rb)[0]] + (ra + rb)[1..];
      assert Split([c] + t, sep) == [[c] + ra[0]] + ra[1..];
      HeadAppend([c], ra, rb);
    }
  }

  lemma AppendAssoc<T>(x: seq<T>, y: seq<T>, z: seq<T>)
    ensures x + (y + z) == (x + y) + z
  {
  }

  /** Extending the first piece commutes with appending more pieces. */
  lemma HeadAppend(h: string, ra: seq<string>, rb: seq<string>)
    requires |ra| >= 1
    ensures [h + (ra + rb)[0]] + (ra + rb)[1..] == ([h + ra[0]] + ra[1..]) + rb
  {
    assert (ra + rb)[0] == ra[0];
    assert (ra + rb)[1..] == ra[1..] + rb;
  }

  /** The pieces of a split hold no separator and only characters of the input. */
  lemma {:induction false} SplitPieces(s: string, sep: char)
    ensures forall k :: 0 <= k < |Split(s, sep)| ==> sep !in Split(s, sep)[k]
    ensures forall k, c :: 0 <= k < |Split(s, sep)| && c in Split(s, sep)[k] ==> c in s
    decreases |s|
  {
    if |s| > 0 {
      SplitPieces(s[1..], sep);
      var rest := Split(s[1..], sep);
      if s[0] != sep {
        var r := Split(s, sep);
        assert r[0] == [s[0]] + rest[0];
        forall k, c | 0 <= k < |r| && c in r[k] ensures c in s {
          if k == 0 {
            if c != s[0] { assert c in rest[0]; assert c in s[1..]; }
          } else {
            assert r[k] == rest[k];
            assert c in s[1..];
          }
        }
        forall k | 0 <= k < |r| ensures sep !in r[k] {
          if k > 0 { assert r[k] == rest[k]; }
        }
      } else {
        var r := Split(s, sep);
        forall k, c | 0 <= k < |r| && c in r[k] ensures c in s {
          assert r[k] == rest[k - 1];
          assert c in s[1..];
        }
        forall k | 0 <= k < |r| ensures sep !in r[k] {
          if k > 0 { assert r[k] == rest[k - 1]; }
        }
      }
    }
  }

  /** Array.prototype.join over strings. */
  function Join(parts: seq<string>, sep: string): string
    decreases |parts|
  {
    if |parts| == 0 then ""
    else if |parts| == 1 then parts[0]
    else parts[0] + sep + Join(parts[1..], sep)
  }

  /** Splitting is undone by joining with the separator. */
  lemma {:induction false} JoinSplit(s: string, sep: char)
    ensures Join(Split(s, sep), [sep]) == s
    decreases |s|
  {
    if |s| > 0 {
      JoinSplit(s[1..], sep);
      var rest := Split(s[1..], sep);
      if s[0] == sep {
        assert Split(s, sep) == [""] + rest;
        assert ([""] + rest)[1..] == rest;
        assert Join(Split(s, sep), [sep]) == "" + [sep] + Join(rest, [sep]);
        assert [s[0]] + s[1..] == s;
      } else {
        var r := Split(s, sep);
        assert r[0] == [s[0]] + rest[0];
        if |rest| == 1 {
          assert Join(r, [sep]) == [s[0]] + rest[0];
          assert [s[0]] + s[1..] == s;
        } else {
          assert r[1..] == rest[1..];
          assert Join(rest, [sep]) == rest[0] + [sep] + Join(rest[1..], [sep]);
          assert Join(r, [sep]) == [s[0]] + rest[0] + [sep] + Join(rest[1..], [sep]);
          assert [s[0]] + s[1..] == s;
        }
      }
    }
  }

  // ---------------------------------------------------------------------------
  // Numbers: toString and parseInt

  function DigitChar(d: nat): (c: char)
    requires d < 10
    ensures IsDigit(c)
  {
    "0123456789"[d]
  }

  /** The value of a digit in radix up to 36; 36 for a character that is no digit. */
  function DigitValue(c: char): nat {
    if '0' <= c <= '9' then c as nat - '0' as nat
    else if 'a' <= c <= 'z' then c as nat - 'a' as nat + 10
    else if 'A' <= c <= 'Z' then c as nat - 'A' as nat + 10
    else 36
  }

  /** Number.prototype.toString of a non-negative integer: decimal, no leading zeros. */
  function NatToString(n: nat): (r: string)
    ensures |r| > 0 && forall i :: 0 <= i < |r| ==> IsDigit(r[i])
    ensures r[0] == '0' ==> n == 0 && r == "0"
    decreases n
  {
    if n < 10 then [DigitChar(n)] else NatToString(n / 10) + [DigitChar(n % 10)]
  }

  /** `x + 1`: NaN stays NaN. */
  function AddOne(x: Number): (r: Number)
    ensures r.NaN? <==> x.NaN?
    ensures x.Finite? ==> r.value == x.value + 1
  {
    match x
    case NaN => NaN
    case Finite(v) => Finite(v + 1)
  }

  function NumberToString(x: Number): string {
    match x
    case NaN => "NaN"
    case Finite(v) => if v < 0 then "-" + NatToString(-v) else NatToString(v)
  }

  /** The longest prefix of `s` made of digits of the radix. */
  function LeadingDigits(s: string, radix: nat): (r: string)
    ensures r <= s
    ensures forall i :: 0 <= i < |r| ==> DigitValue(r[i]) < radix
    ensures |r| == |s| || DigitValue(s[|r|]) >= radix
    decreases |s|
  {
    if |s| > 0 && DigitValue(s[0]) < radix then [s[0]] + LeadingDigits(s[1..], radix) else []
  }

  /** The value of a digit string in the radix, most significant digit first. */
  function DigitsValue(z: string, radix: nat): nat
    decreases |z|
  {
    if |z| == 0 then 0 else DigitsValue(z[..|z| - 1], radix) * radix + DigitValue(z[|z| - 1])
  }

  /**
    The unsigned part of parseInt: a `0x`/`0X` prefix selects radix 16
    (radix 10 otherwise), then the longest run of digits is read; Null
    (standing for NaN) when that run is empty.
   */
  function ParseMagnitude(u: string): Nullable<nat> {
    var hex := |u| >= 2 && u[0] == '0' && (u[1] == 'x' || u[1] == 'X');
    var radix := if hex then 16 else 10;
    var z := LeadingDigits(if hex then u[2..] else u, radix);
    if |z| == 0 then Null else Some(DigitsValue(z, radix))
  }

  /**
    parseInt(s) without a radix: skip leading white space and line
    terminators, read an optional sign, then the magnitude.
   */
  function ParseInt(s: string): (r: Number)
    ensures r.Finite? && '-' !in s ==> r.value >= 0
  {
    var t := TrimStart(s);
    var negative := |t| > 0 && t[0] == '-';
    var signed := |t| > 0 && (t[0] == '-' || t[0] == '+');
    match ParseMagnitude(if signed then t[1..] else t)
    case Null => NaN
    case Some(m) =>
      assert negative ==> '-' in s by {
        if negative { assert t[0] == s[|s| - |t|]; }
      }
      Finite(if negative then -(m as int) else m)
  }

  lemma {:induction false} DigitsValueOfNatToString(n: nat)
    ensures DigitsValue(NatToString(n), 10) == n
    decreases n
  {
    if n >= 10 {
      DigitsValueOfNatToString(n / 10);
      var r := NatToString(n);
      assert r[..|r| - 1] == NatToString(n / 10);
    }
  }

  lemma {:induction false} LeadingDigitsAll(s: string, radix: nat)
    requires forall i :: 0 <= i < |s| ==> DigitValue(s[i]) < radix
    ensures LeadingDigits(s, radix) == s
    decreases |s|
  {
    if |s| > 0 {
      LeadingDigitsAll(s[1..], radix);
      assert [s[0]] + s[1..] == s;
    }
  }

  /** parseInt of a string that starts with a digit other than a `0x` prefix. */
  lemma ParseIntOfDigitStart(s: string)
    requires |s| > 0 && IsDigit(s[0])
    requires !(|s| >= 2 && s[0] == '0' && (s[1] == 'x' || s[1] == 'X'))
    ensures ParseInt(s) == Finite(DigitsValue(LeadingDigits(s, 10), 10))
  {
    DigitNotTrimmable(s[0]);
    assert TrimStart(s) == s;
    DecimalMagnitude(s);
  }

  lemma DigitNotTrimmable(c: char)
    requires IsDigit(c)
    ensures !IsTrimmable(c) && c != '-' && c != '+'
  {
  }

  /** A magnitude that starts with a decimal digit and no `0x` prefix is read in base 10. */
  lemma DecimalMagnitude(u: string)
    requires |u| > 0 && IsDigit(u[0])
    requires !(|u| >= 2 && u[0] == '0' && (u[1] == 'x' || u[1] == 'X'))
    ensures ParseMagnitude(u) == Some(DigitsValue(LeadingDigits(u, 10), 10))
  {
    assert DigitValue(u[0]) < 10;
    assert |LeadingDigits(u, 10)| > 0;
  }

  /** parseInt reads back every decimal string toString produces. */
  lemma ParseIntNatToString(n: nat)
    ensures ParseInt(NatToString(n)) == Finite(n)
  {
    var s := NatToString(n);
    forall i | 0 <= i < |s| ensures DigitValue(s[i]) < 10 {
      assert IsDigit(s[i]);
    }
    LeadingDigitsAll(s, 10);
    ParseIntOfDigitStart(s);
    DigitsValueOfNatToString(n);
  }

  /** The NaN case of ParseIntNumberToString: the text "NaN" has no leading digit. */
  lemma ParseIntNaN()
    ensures ParseInt("NaN") == NaN
  {
    var s := "NaN";
    assert !IsTrimmable(s[0]);
    assert TrimStart(s) == s;
    assert DigitValue(s[0]) >= 10;
    assert LeadingDigits(s, 10) == "";
  }

  /** A number renders to a string parseInt reads back, unless it is negative. */
  lemma ParseIntNumberToString(x: Number)
    requires x.Finite? ==> x.value >= 0
    ensures ParseInt(NumberToString(x)) == x
  {
    match x
    case NaN => ParseIntNaN();
    case Finite(v) => ParseIntNatToString(v);
  }

  // ---------------------------------------------------------------------------
  // Arrays

  /** Array.prototype.reverse, as a value. */
  function Reverse<T>(s: seq<T>): (r: seq<T>)
    ensures |r| == |s|
    ensures forall i :: 0 <= i < |s| ==> r[i] == s[|s| - 1 - i]
    decreases |s|
  {
    if |s| == 0 then [] else Reverse(s[1..]) + [s[0]]
  }
}
