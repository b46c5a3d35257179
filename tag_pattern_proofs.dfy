/**
  The search pattern and the tags it selects: every tag Format writes (with
  a numeric build) is matched by the glob GetPattern gives, and every text
  that glob matches starts with the formatter's lead.
 */
module TagPatternProofs {
  import opened Js
  import opened Types
  import opened TagFormat
  import opened Glob
  import TagFormatProofs

  /** `*[0-9].` in front of more items. */
  function GlobField(rest: seq<Item>): seq<Item> {
    [AnyRun, Digit] + ([Char('.')] + rest)
  }

  /** `*[0-9].*[0-9].*[0-9]` as items. */
  const TripleItems := GlobField(GlobField([AnyRun, Digit]))

  lemma CompileDigitGlob(rest: string)
    ensures Compile(DigitGlob + rest) == [AnyRun, Digit] + Compile(rest)
  {
    var p := DigitGlob + rest;
    assert p[0] == '*';
    assert p[1..][..5] == "[0-9]" && p[1..][5..] == rest;
  }

  lemma CompileField(rest: string)
    ensures Compile(DigitGlob + ("." + rest)) == GlobField(Compile(rest))
  {
    CompileDigitGlob("." + rest);
    var p := "." + rest;
    assert p[0] == '.' && p[1..] == rest;
  }

  lemma VersionGlobItems()
    ensures Compile(VersionGlob) == TripleItems
  {
    var g := DigitGlob;
    assert VersionGlob == g + ("." + (g + ("." + g)));
    CompileDigitGlob("");
    assert g + "" == g;
    assert Compile(g) == [AnyRun, Digit];
    CompileField(g);
    CompileField(g + ("." + g));
  }

  lemma LeadPlain(f: TagFormatter)
    requires Plain(f.tagPrefix) && Plain(f.namespace)
    ensures Plain(Lead(f))
  {
    var l := Lead(f);
    if f.namespace != "" {
      forall i | 0 <= i < |l| ensures l[i] != '*' && l[i] != '?' && l[i] != '[' && l[i] != '\\' {
        if i < |f.namespace| {
          assert l[i] == f.namespace[i];
        } else if i > |f.namespace| {
          assert l[i] == f.tagPrefix[i - |f.namespace| - 1];
        }
      }
    }
  }

  /** A decimal text has no '/' and ends in a digit. */
  lemma DecimalEnd(x: Number)
    requires x.Finite?
    ensures var t := NumberToString(x); |t| > 0 && IsDigit(t[|t| - 1]) && '/' !in t
  {
    if x.value < 0 {
      var d := NatToString(-x.value);
      assert ("-" + d)[|d|] == d[|d| - 1];
      forall i | 0 <= i < |d| + 1 ensures ("-" + d)[i] != '/' {
        if i > 0 {
          assert ("-" + d)[i] == d[i - 1];
        }
      }
    } else {
      var d := NatToString(x.value);
      assert forall i :: 0 <= i < |d| ==> d[i] != '/';
    }
  }

  /** The patch field and whatever Format writes after it: no '/', ending in a digit. */
  lemma PatchAndSuffixEnd(f: TagFormatter, v: Version)
    requires HasSuffix(f, v) ==>
      '/' !in v.preReleaseType.value && v.preReleaseBuild.Some? && v.preReleaseBuild.value.Finite?
    ensures var t := NatToString(v.patch) + (if HasSuffix(f, v)
        then "-" + v.preReleaseType.value + "." + NumberText(v.preReleaseBuild) else "");
      |t| > 0 && IsDigit(t[|t| - 1]) && '/' !in t
  {
    var p := NatToString(v.patch);
    assert forall i :: 0 <= i < |p| ==> p[i] != '/';
    if HasSuffix(f, v) {
      var b := NumberText(v.preReleaseBuild);
      DecimalEnd(v.preReleaseBuild.value);
      var t := p + ("-" + v.preReleaseType.value + "." + b);
      assert t[|t| - 1] == b[|b| - 1];
      assert '/' !in "-" + v.preReleaseType.value + "." + b;
    } else {
      assert p + "" == p;
    }
  }

  /** `*[0-9].` takes a '/'-free text ending in a digit and the dot after it. */
  lemma FieldStep(x: string, rest: seq<Item>, t: string)
    requires |x| > 0 && IsDigit(x[|x| - 1]) && '/' !in x
    requires Matches(rest, t)
    ensures Matches(GlobField(rest), x + ("." + t))
  {
    assert ([Char('.')] + rest)[1..] == rest;
    assert ("." + t)[1..] == t;
    assert Matches([Char('.')] + rest, "." + t);
    StarDigit(x, [Char('.')] + rest, "." + t);
  }

  lemma LastField(c: string)
    requires |c| > 0 && IsDigit(c[|c| - 1]) && '/' !in c
    ensures Matches([AnyRun, Digit], c)
  {
    StarDigit(c, [], "");
    assert [AnyRun, Digit] + [] == [AnyRun, Digit] && c + "" == c;
  }

  /** Three '/'-free texts ending in digits, joined by dots, match the version glob. */
  lemma GlobTriple(a: string, b: string, c: string)
    requires |a| > 0 && IsDigit(a[|a| - 1]) && '/' !in a
    requires |b| > 0 && IsDigit(b[|b| - 1]) && '/' !in b
    requires |c| > 0 && IsDigit(c[|c| - 1]) && '/' !in c
    ensures Matches(TripleItems, a + ("." + (b + ("." + c))))
  {
    LastField(c);
    FieldStep(b, [AnyRun, Digit], c);
    FieldStep(a, GlobField([AnyRun, Digit]), b + ("." + c));
  }

  lemma Regroup(ma: string, mi: string, pa: string, sfx: string)
    ensures ma + ("." + (mi + ("." + (pa + sfx)))) == ma + "." + mi + "." + pa + sfx
  {
  }

  lemma RegroupSuffix(triple: string, t: string, b: string)
    ensures triple + ("-" + t + "." + b) == triple + "-" + t + "." + b
  {
  }

  lemma DigitsEnd(n: nat)
    ensures var t := NatToString(n); |t| > 0 && IsDigit(t[|t| - 1]) && '/' !in t
  {
    var t := NatToString(n);
    assert forall i :: 0 <= i < |t| ==> t[i] != '/';
  }

  /** The version glob takes the triple and the suffix Format writes. */
  lemma VersionGlobMatchesVersionPart(f: TagFormatter, v: Version)
    requires HasSuffix(f, v) ==>
      '/' !in v.preReleaseType.value && v.preReleaseBuild.Some? && v.preReleaseBuild.value.Finite?
    ensures Matches(Compile(VersionGlob), TagFormatProofs.VersionPart(f, v))
  {
    VersionGlobItems();
    var ma, mi := NatToString(v.major), NatToString(v.minor);
    DigitsEnd(v.major);
    DigitsEnd(v.minor);
    var tail := NatToString(v.patch) + (if HasSuffix(f, v)
        then "-" + v.preReleaseType.value + "." + NumberText(v.preReleaseBuild) else "");
    PatchAndSuffixEnd(f, v);
    GlobTriple(ma, mi, tail);
    var pa := NatToString(v.patch);
    if HasSuffix(f, v) {
      var sfx := "-" + v.preReleaseType.value + "." + NumberText(v.preReleaseBuild);
      Regroup(ma, mi, pa, sfx);
      RegroupSuffix(TripleText(v), v.preReleaseType.value, NumberText(v.preReleaseBuild));
    } else {
      Regroup(ma, mi, pa, "");
      assert TripleText(v) + "" == TripleText(v);
    }
  }

  /**
    GetPattern selects every tag Format writes, when the prefix and the
    namespace hold no wildcard characters and a written suffix has no '/'
    in its type and a numeric build.
   */
  lemma PatternMatchesFormat(f: TagFormatter, v: Version)
    requires Plain(f.tagPrefix) && Plain(f.namespace)
    requires HasSuffix(f, v) ==>
      '/' !in v.preReleaseType.value && v.preReleaseBuild.Some? && v.preReleaseBuild.value.Finite?
    ensures Matches(Compile(GetPattern(f)), Format(f, v))
  {
    LeadPlain(f);
    CompilePlain(Lead(f), VersionGlob);
    TagFormatProofs.FormatShape(f, v);
    VersionGlobMatchesVersionPart(f, v);
    var t := Format(f, v);
    assert t[|Lead(f)|..] == TagFormatProofs.VersionPart(f, v);
    MatchesLiteral(Lead(f), Compile(VersionGlob), t);
  }

  /** Every text the pattern selects starts with the lead. */
  lemma PatternMatchHasLead(f: TagFormatter, s: string)
    requires Plain(f.tagPrefix) && Plain(f.namespace)
    requires Matches(Compile(GetPattern(f)), s)
    ensures Lead(f) <= s
  {
    LeadPlain(f);
    CompilePlain(Lead(f), VersionGlob);
    MatchesLiteral(Lead(f), Compile(VersionGlob), s);
  }
}
