/**
  The part of git's wildcard matching that the release pattern uses: `*`,
  the class `[0-9]` and literal characters. A `*` here does not cross '/'
  (the path-aware mode `git for-each-ref` uses); a match in this mode is
  also a match in the mode where `*` may cross '/'.
 */
module Glob {
  import opened Js

  datatype Item = AnyRun | Digit | Char(c: char)

  /** The characters that would start a wildcard construct. */
  predicate Plain(s: string) {
    forall i :: 0 <= i < |s| ==> s[i] != '*' && s[i] != '?' && s[i] != '[' && s[i] != '\\'
  }

  /** A glob read as items: `*`, `[0-9]`, or one literal character. */
  function Compile(p: string): (r: seq<Item>)
    ensures |r| <= |p|
    decreases |p|
  {
    if p == [] then []
    else if p[0] == '*' then [AnyRun] + Compile(p[1..])
    else if p[0] == '[' && |p| >= 5 && p[..5] == "[0-9]" then [Digit] + Compile(p[5..])
    else [Char(p[0])] + Compile(p[1..])
  }

  /** Whether the whole of `s` matches the items. */
  predicate Matches(items: seq<Item>, s: string)
    decreases |items| + |s|
  {
    if items == [] then s == []
    else match items[0]
      case AnyRun => Matches(items[1..], s) || (s != [] && s[0] != '/' && Matches(items, s[1..]))
      case Digit => s != [] && IsDigit(s[0]) && Matches(items[1..], s[1..])
      case Char(c) => s != [] && s[0] == c && Matches(items[1..], s[1..])
  }

  /** A plain text compiles to its own characters, whatever follows it. */
  lemma CompilePlain(l: string, rest: string)
    requires Plain(l)
    ensures Compile(l + rest) == Compile(l) + Compile(rest)
    ensures |Compile(l)| == |l| && forall i :: 0 <= i < |l| ==> Compile(l)[i] == Char(l[i])
  {
    CompileAppend(l, rest);
    CompileChars(l);
  }

  /** A character that starts no wildcard compiles to itself. */
  lemma CompileCons(c: char, t: string)
    requires c != '*' && c != '?' && c != '[' && c != '\\'
    ensures Compile([c] + t) == [Char(c)] + Compile(t)
  {
    assert ([c] + t)[0] == c && ([c] + t)[1..] == t;
  }

  lemma {:induction false} CompileAppend(l: string, rest: string)
    requires Plain(l)
    ensures Compile(l + rest) == Compile(l) + Compile(rest)
    decreases |l|
  {
    if l == [] {
      assert l + rest == rest;
    } else {
      assert Plain(l[1..]);
      CompileAppend(l[1..], rest);
      assert l + rest == [l[0]] + (l[1..] + rest);
      assert [l[0]] + l[1..] == l;
      CompileConsRel(l[0], l[1..], l[1..] + rest, Compile(rest));
    }
  }

  /** Putting a plain character in front of two texts keeps a relation between their compilations. */
  lemma CompileConsRel(c: char, t: string, u: string, rb: seq<Item>)
    requires c != '*' && c != '?' && c != '[' && c != '\\'
    requires Compile(u) == Compile(t) + rb
    ensures Compile([c] + u) == Compile([c] + t) + rb
  {
    CompileCons(c, u);
    CompileCons(c, t);
    AppendAssoc([Char(c)], Compile(t), rb);
  }

  lemma {:induction false} CompileChars(l: string)
    requires Plain(l)
    ensures |Compile(l)| == |l| && forall i :: 0 <= i < |l| ==> Compile(l)[i] == Char(l[i])
    decreases |l|
  {
    if l != [] {
      assert Plain(l[1..]);
      CompileChars(l[1..]);
      assert [l[0]] + l[1..] == l;
      CompileCons(l[0], l[1..]);
      forall i | 0 <= i < |l| ensures Compile(l)[i] == Char(l[i]) {
        if i > 0 {
          assert Compile(l)[i] == Compile(l[1..])[i - 1];
        }
      }
    }
  }

  /** Literal items consume exactly their characters. */
  lemma {:induction false} MatchesLiteral(l: string, rest: seq<Item>, s: string)
    requires Plain(l)
    ensures Matches(Compile(l) + rest, s) <==> l <= s && Matches(rest, s[|l|..])
    decreases |l|
  {
    CompilePlain(l, []);
    assert l + [] == l;
    if l != [] {
      var items := Compile(l) + rest;
      assert items[0] == Char(l[0]);
      assert Plain(l[1..]);
      CompilePlain(l[1..], []);
      assert l[1..] + [] == l[1..];
      assert items[1..] == Compile(l[1..]) + rest by {
        assert |Compile(l[1..])| == |l| - 1;
        forall i | 0 <= i < |l| - 1 ensures items[1..][i] == (Compile(l[1..]) + rest)[i] {
          assert Compile(l)[i + 1] == Char(l[i + 1]) == Compile(l[1..])[i];
        }
      }
      if s != [] {
        MatchesLiteral(l[1..], rest, s[1..]);
        if |l| <= |s| {
          assert s[1..][|l| - 1..] == s[|l|..];
        }
        assert (l <= s) <==> (s[0] == l[0] && l[1..] <= s[1..]);
      }
    } else {
      assert Compile(l) + rest == rest;
    }
  }

  /**
    `*[0-9]` followed by more items takes a text without '/' that ends in a
    digit, followed by whatever those items take.
   */
  lemma {:induction false} StarDigit(s: string, rest: seq<Item>, t: string)
    requires |s| > 0 && IsDigit(s[|s| - 1]) && '/' !in s
    requires Matches(rest, t)
    ensures Matches([AnyRun, Digit] + rest, s + t)
    decreases |s|
  {
    var items := [AnyRun, Digit] + rest;
    assert items[1..] == [Digit] + rest;
    assert ([Digit] + rest)[1..] == rest;
    if |s| == 1 {
      assert (s + t)[1..] == t;
      assert Matches([Digit] + rest, s + t);
    } else {
      assert s[1..][|s| - 2] == s[|s| - 1];
      assert '/' !in s[1..] by {
        forall i | 0 <= i < |s| - 1 ensures s[1..][i] != '/' {
          assert s[1..][i] == s[i + 1];
        }
      }
      StarDigit(s[1..], rest, t);
      assert (s + t)[1..] == s[1..] + t;
      assert (s + t)[0] == s[0] != '/';
    }
  }
}
