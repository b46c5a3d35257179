/**
  What the tag formatter's operations promise about each other: every tag
  Format writes is accepted by IsValid and read back by Parse, and the
  cooked `\.` makes IsValid looser than the tag grammar reads.
 */
module TagFormatProofs {
  import opened Js
  import opened Types
  import opened TagFormat

  // ---------------------------------------------------------------------------
  // Shape of a formatted tag

  /** What Format writes after the lead. */
  function VersionPart(f: TagFormatter, v: Version): string {
    if HasSuffix(f, v)
    then TripleText(v) + "-" + v.preReleaseType.value + "." + NumberText(v.preReleaseBuild)
    else TripleText(v)
  }

  lemma FormatShape(f: TagFormatter, v: Version)
    ensures Format(f, v) == Lead(f) + VersionPart(f, v)
  {
  }

  // ---------------------------------------------------------------------------
  // Format is accepted by IsValid

  /** The triple written by Format matches `[0-9]+.[0-9]+.[0-9]+`. */
  lemma TripleIsVersionCore(v: Version)
    ensures VersionCore(TripleText(v))
  {
    var a, b, c := NatToString(v.major), NatToString(v.minor), NatToString(v.patch);
    var s := TripleText(v);
    assert s == a + "." + b + "." + c;
    var i, j := |a|, |a| + 1 + |b|;
    assert s[..i] == a;
    assert s[i + 1..j] == b;
    assert s[j + 1..] == c;
    assert 0 < i && i + 1 < j && j + 1 < |s| &&
      DigitRun(s[..i]) && AnyChar(s[i]) && DigitRun(s[i + 1..j]) && AnyChar(s[j]) && DigitRun(s[j + 1..]);
  }

  /** `-type.build` matches the suffix grammar when the type is alphanumeric and the build a natural number. */
  lemma SuffixIsPreRelease(t: string, n: nat)
    requires AlnumRun(t)
    ensures PreReleaseSuffix("-" + t + "." + NatToString(n))
  {
    var b := NatToString(n);
    var s := "-" + t + "." + b;
    var k := |t| + 1;
    assert s[1..k] == t;
    var g := s[k..];
    assert g == "." + b;
    assert AlnumRun(g[1..|g|]) by {
      assert g[1..|g|] == b;
      forall i | 0 <= i < |b| ensures IsAsciiAlnum(b[i]) {
        assert IsDigit(b[i]);
      }
    }
    assert g[|g|..] == [];
    assert DotGroups(g);
  }

  /** The text after the lead is what IsValid expects there. */
  lemma VersionPartIsVersionText(f: TagFormatter, v: Version)
    requires HasSuffix(f, v) ==>
      AlnumRun(v.preReleaseType.value) &&
      v.preReleaseBuild.Some? && v.preReleaseBuild.value.Finite? && v.preReleaseBuild.value.value >= 0
    ensures VersionText(f, VersionPart(f, v))
  {
    var core := TripleText(v);
    TripleIsVersionCore(v);
    if HasSuffix(f, v) {
      SuffixIsPreRelease(v.preReleaseType.value, v.preReleaseBuild.value.value);
      CoreThenSuffix(f, core, v.preReleaseType.value, NumberText(v.preReleaseBuild));
    } else {
      assert core[..|core|] == core;
    }
  }

  /** A version core followed by a pre-release suffix is a version text when pre-releases are on. */
  lemma CoreThenSuffix(f: TagFormatter, core: string, t: string, b: string)
    requires f.usePreReleases && VersionCore(core) && PreReleaseSuffix("-" + t + "." + b)
    ensures VersionText(f, core + "-" + t + "." + b)
  {
    SuffixAssoc(core, t, b);
    CoreThen(f, core, "-" + t + "." + b);
  }

  lemma SuffixAssoc(core: string, t: string, b: string)
    ensures core + "-" + t + "." + b == core + ("-" + t + "." + b)
  {
  }

  lemma CoreThen(f: TagFormatter, core: string, suffix: string)
    requires f.usePreReleases && VersionCore(core) && PreReleaseSuffix(suffix)
    ensures VersionText(f, core + suffix)
  {
    var rest := core + suffix;
    assert rest[..|core|] == core && rest[|core|..] == suffix;
  }

  /**
    Every tag Format writes passes IsValid, whatever the prefix and the
    namespace, provided a pre-release type it writes is alphanumeric and
    its build a natural number.
   */
  lemma FormatIsValid(f: TagFormatter, v: Version)
    requires HasSuffix(f, v) ==>
      AlnumRun(v.preReleaseType.value) &&
      v.preReleaseBuild.Some? && v.preReleaseBuild.value.Finite? && v.preReleaseBuild.value.value >= 0
    ensures IsValid(f, Format(f, v))
  {
    FormatShape(f, v);
    VersionPartIsVersionText(f, v);
    var tag, rest := Format(f, v), VersionPart(f, v);
    assert tag[|Lead(f)|..] == rest;
  }

  // ---------------------------------------------------------------------------
  // Parse reads back what Format writes

  /**
    Conditions on the configuration under which Parse can find the prefix
    again: no '$' in the prefix; with a namespace, also no '/' or '!' in the
    prefix, which must not occur in the namespace. Without a namespace the
    placeholder swap hides any '/' of the prefix from the split.
   */
  predicate RoundTripSafe(f: TagFormatter) {
    '$' !in f.tagPrefix &&
    (f.namespace != "" ==>
      '/' !in f.tagPrefix && '!' !in f.tagPrefix &&
      (f.tagPrefix != "" ==> !Contains(f.namespace, f.tagPrefix)))
  }

  /** No two '-' next to each other; both placeholders start with "<--". */
  predicate NoDoubleDash(s: string) {
    forall i :: 0 <= i < |s| - 1 ==> !(s[i] == '-' && s[i + 1] == '-')
  }

  /** The facts about the two placeholders that make them safe stand-ins. */
  predicate PlaceholderPair(p: string, n: string) {
    |p| >= 5 && |n| >= 5 &&
    p[0] == '<' && p[1] == '-' && p[2] == '-' &&
    n[1] == '-' && n[2] == '-' && n[3] == '!' && n[4] != p[4] &&
    (forall j :: 1 <= j < |n| ==> n[j] != '<') &&
    (forall j :: 0 <= j < |n| ==> !IsDigit(n[j])) &&
    '/' !in p && '/' !in n && '$' !in p && '$' !in n
  }

  lemma PlaceholdersArePair()
    ensures PlaceholderPair(PrefixPlaceholder, NamespacePlaceholder)
  {
    NamespacePlaceholderChars();
    PrefixPlaceholderChars();
  }

  lemma NamespacePlaceholderChars()
    ensures var n := NamespacePlaceholder;
      |n| >= 5 && n[1] == '-' && n[2] == '-' && n[3] == '!' && n[4] == 'N' &&
      (forall j :: 1 <= j < |n| ==> n[j] != '<') &&
      (forall j :: 0 <= j < |n| ==> !IsDigit(n[j])) &&
      '/' !in n && '$' !in n
  {
  }

  lemma PrefixPlaceholderChars()
    ensures var p := PrefixPlaceholder;
      |p| >= 5 && p[0] == '<' && p[1] == '-' && p[2] == '-' && p[4] == 'P' && '/' !in p && '$' !in p
  {
  }

  lemma PlaceholderAbsent(s: string, pat: string)
    requires |pat| >= 3 && pat[1] == '-' && pat[2] == '-'
    requires NoDoubleDash(s)
    ensures forall j :: !OccursAt(s, pat, j)
  {
    forall j | OccursAt(s, pat, j) ensures false {
    }
  }

  /** The namespace placeholder is nowhere in the prefix followed by the version text. */
  lemma NamespacePlaceholderAbsent(prefix: string, rest: string, p: string, n: string)
    requires PlaceholderPair(p, n)
    requires '!' !in prefix
    requires |rest| > 0 && IsDigit(rest[0]) && NoDoubleDash(rest)
    ensures forall j :: !OccursAt(prefix + rest, n, j)
  {
    var s := prefix + rest;
    forall j | OccursAt(s, n, j) ensures false {
    }
  }

  /** The prefix placeholder does not start inside the namespace placeholder in front of it. */
  lemma PrefixPlaceholderAfterNamespace(p: string, n: string, rest: string)
    requires PlaceholderPair(p, n)
    ensures forall j :: 0 <= j < |n| ==> !OccursAt(n + p + rest, p, j)
  {
    var s := n + p + rest;
    forall j | 0 <= j < |n| && OccursAt(s, p, j) ensures false {
    }
  }

  /** Without a namespace: the prefix is found at the start and cut off. */
  lemma StripNoNamespace(prefix: string, rest: string, p: string, n: string)
    requires PlaceholderPair(p, n)
    requires '$' !in prefix
    requires '/' !in rest && NoDoubleDash(rest)
    ensures StripLead(prefix, "", p, n, prefix + rest) == rest
  {
    HideNoNamespace(prefix, rest, p, n);
    assert '/' !in n + p + rest;
    SplitNoSeparator(n + p + rest, '/');
    RestoreNoNamespace(prefix, rest, p, n);
    assert (prefix + rest)[|prefix|..] == rest;
  }

  /** With no namespace, the prefix placeholder replaces the prefix and the namespace one goes in front. */
  lemma HideNoNamespace(prefix: string, rest: string, p: string, n: string)
    requires '$' !in p && '$' !in n
    ensures Replace(Replace(prefix + rest, prefix, p), "", n) == n + p + rest
  {
    ReplaceFirst("", prefix, rest, p);
    assert "" + prefix + rest == prefix + rest && "" + p + rest == p + rest;
    ReplaceEmptyPattern(p + rest, n);
    assert n + (p + rest) == n + p + rest;
  }

  /** Putting back the prefix and the empty namespace leaves the prefix followed by the rest. */
  lemma RestoreNoNamespace(prefix: string, rest: string, p: string, n: string)
    requires PlaceholderPair(p, n) && '$' !in prefix
    ensures Replace(Replace(n + p + rest, p, prefix), n, "") == prefix + rest
  {
    PrefixPlaceholderAfterNamespace(p, n, rest);
    ReplaceFirst(n, p, rest, prefix);
    ReplaceFirst([], n, prefix + rest, []);
    EmptyFront(n, prefix, rest);
  }

  lemma EmptyFront(n: string, a: string, b: string)
    ensures [] + n + (a + b) == n + a + b
    ensures [] + [] + (a + b) == a + b
  {
  }

  /** The prefix does not start before the place Format wrote it. */
  lemma PrefixFirstAfterNamespace(ns: string, prefix: string, rest: string)
    requires '/' !in prefix && !Contains(ns, prefix)
    ensures forall j :: 0 <= j < |ns + "/"| ==> !OccursAt(ns + "/" + prefix + rest, prefix, j)
  {
    var tag := ns + "/" + prefix + rest;
    forall j | 0 <= j < |ns + "/"| ensures !OccursAt(tag, prefix, j) {
      if j + |prefix| <= |ns| {
        assert tag[j..j + |prefix|] == ns[j..j + |prefix|];
        assert !OccursAt(ns, prefix, j);
      } else if j + |prefix| <= |tag| {
        assert tag[j..j + |prefix|][|ns| - j] == '/' != prefix[|ns| - j];
      }
    }
  }

  /** With a namespace and a prefix, the placeholders split as `n/p rest`. */
  lemma PlaceholdersInNamespacedTag(ns: string, prefix: string, rest: string, p: string, n: string)
    requires PlaceholderPair(p, n)
    requires '/' !in prefix && !Contains(ns, prefix) && '/' !in rest
    ensures Split(Replace(Replace(ns + "/" + prefix + rest, prefix, p), ns, n), '/') == [n, p + rest]
  {
    PrefixFirstAfterNamespace(ns, prefix, rest);
    ReplaceFirst(ns + "/", prefix, rest, p);
    RegroupAfter(ns, "/", p, rest, n);
    NamespaceFirst(ns, "/" + p + rest, n);
    SplitAtPlaceholder(n, p + rest);
  }

  lemma RegroupAfter(a: string, d: string, b: string, c: string, n: string)
    ensures a + d + b + c == a + (d + b + c)
    ensures n + (d + b + c) == n + d + (b + c)
  {
  }

  /** The namespace placeholder goes in at the very start. */
  lemma NamespaceFirst(ns: string, tail: string, n: string)
    requires '$' !in n
    ensures Replace(ns + tail, ns, n) == n + tail
  {
    ReplaceFirst("", ns, tail, n);
    assert "" + ns + tail == ns + tail;
    assert "" + n + tail == n + tail;
  }

  lemma SplitAtPlaceholder(n: string, t: string)
    requires '/' !in n && '/' !in t
    ensures Split(n + "/" + t, '/') == [n, t]
  {
    assert n + "/" + t == n + ['/'] + t;
    SplitConcat(n, t, '/');
    SplitNoSeparator(n, '/');
    SplitNoSeparator(t, '/');
  }

  lemma StripNamespaceAndPrefix(ns: string, prefix: string, rest: string, p: string, n: string)
    requires PlaceholderPair(p, n)
    requires ns != "" && prefix != ""
    requires '/' !in prefix && '$' !in prefix && '!' !in prefix && !Contains(ns, prefix)
    requires |rest| > 0 && IsDigit(rest[0]) && '/' !in rest && NoDoubleDash(rest)
    ensures StripLead(prefix, ns, p, n, ns + "/" + prefix + rest) == rest
  {
    PlaceholdersInNamespacedTag(ns, prefix, rest, p, n);
    RestoreNamespaced(ns, prefix, rest, p, n);
    assert (prefix + rest)[|prefix|..] == rest;
  }

  /** The last '/' piece `p + rest` gets its prefix back; the namespace placeholder is not in it. */
  lemma RestoreNamespaced(ns: string, prefix: string, rest: string, p: string, n: string)
    requires PlaceholderPair(p, n)
    requires '$' !in prefix && '!' !in prefix
    requires |rest| > 0 && IsDigit(rest[0]) && NoDoubleDash(rest)
    ensures Replace(Replace(p + rest, p, prefix), n, ns) == prefix + rest
  {
    ReplaceFirst("", p, rest, prefix);
    assert "" + p + rest == p + rest && "" + prefix + rest == prefix + rest;
    NamespacePlaceholderAbsent(prefix, rest, p, n);
    ReplaceAbsent(prefix + rest, n, ns);
  }

  /** Replacing the first occurrence of a pattern that occurs within `x` leaves what follows `x` alone. */
  lemma ReplaceWithinHead(x: string, pat: string, repl: string, y: string)
    requires '$' !in repl
    requires exists j :: 0 <= j && j + |pat| <= |x| && OccursAt(x + y, pat, j)
    ensures exists z :: Replace(x + y, pat, repl) == z + y
  {
    var s := x + y;
    var j :| 0 <= j && j + |pat| <= |x| && OccursAt(s, pat, j);
    var i := IndexOf(s, pat).value;
    var a, c := x[..i], x[i + |pat|..];
    OccurrenceInHead(x, y, pat, i);
    ReplaceFirst(a, pat, c + y, repl);
    Js.AppendAssoc(a + repl, c, y);
  }

  /** An occurrence of `pat` within `x` splits `x + y` around it. */
  lemma OccurrenceInHead(x: string, y: string, pat: string, i: nat)
    requires i + |pat| <= |x| && OccursAt(x + y, pat, i)
    ensures x + y == x[..i] + pat + (x[i + |pat|..] + y)
  {
    assert x == x[..i] + x[i..i + |pat|] + x[i + |pat|..];
    assert x[i..i + |pat|] == (x + y)[i..i + |pat|];
  }

  /** With a namespace and no prefix: the text after the last '/' is the version text. */
  lemma StripNamespaceOnly(ns: string, rest: string, p: string, n: string)
    requires PlaceholderPair(p, n)
    requires ns != ""
    requires '/' !in rest && NoDoubleDash(rest)
    ensures StripLead("", ns, p, n, ns + "/" + rest) == rest
  {
    var tag := ns + "/" + rest;
    ReplaceEmptyPattern(tag, p);
    var x := p + ns;
    assert p + tag == x + ("/" + rest);
    assert OccursAt(x + ("/" + rest), ns, |p|) by {
      assert (x + ("/" + rest))[|p|..|p| + |ns|] == ns;
    }
    ReplaceWithinHead(x, ns, n, "/" + rest);
    var z :| Replace(x + ("/" + rest), ns, n) == z + ("/" + rest);
    assert z + ("/" + rest) == z + ['/'] + rest;
    SplitConcat(z, rest, '/');
    SplitNoSeparator(rest, '/');
    PlaceholderAbsent(rest, p);
    PlaceholderAbsent(rest, n);
    ReplaceAbsent(rest, p, "");
    ReplaceAbsent(rest, n, ns);
  }

  /** Parse's lead removal finds the version text right after the lead. */
  lemma StripLeadOfLead(f: TagFormatter, rest: string)
    requires RoundTripSafe(f)
    requires |rest| > 0 && IsDigit(rest[0]) && '/' !in rest && NoDoubleDash(rest)
    ensures StripLead(f.tagPrefix, f.namespace, PrefixPlaceholder, NamespacePlaceholder, Lead(f) + rest) == rest
  {
    PlaceholdersArePair();
    var p, n := PrefixPlaceholder, NamespacePlaceholder;
    if f.namespace == "" {
      StripNoNamespace(f.tagPrefix, rest, p, n);
    } else if f.tagPrefix != "" {
      assert Lead(f) + rest == f.namespace + "/" + f.tagPrefix + rest;
      StripNamespaceAndPrefix(f.namespace, f.tagPrefix, rest, p, n);
    } else {
      assert Lead(f) + rest == f.namespace + "/" + rest;
      StripNamespaceOnly(f.namespace, rest, p, n);
    }
  }

  // ---------------------------------------------------------------------------
  // Reading the version text back

  lemma DigitsArePlain(s: string)
    requires forall i :: 0 <= i < |s| ==> IsDigit(s[i])
    ensures '-' !in s && '.' !in s && '/' !in s
  {
    forall i | 0 <= i < |s| ensures s[i] != '-' && s[i] != '.' && s[i] != '/' {
      assert IsDigit(s[i]);
    }
  }

  /** `M.m.p` splits at '.' into its three numbers. */
  lemma SplitTriple(v: Version)
    ensures Split(TripleText(v), '.') ==
      [NatToString(v.major), NatToString(v.minor), NatToString(v.patch)]
  {
    var a, b, c := NatToString(v.major), NatToString(v.minor), NatToString(v.patch);
    DigitsArePlain(a);
    DigitsArePlain(b);
    DigitsArePlain(c);
    assert TripleText(v) == a + ['.'] + (b + ['.'] + c);
    SplitConcat(a, b + ['.'] + c, '.');
    SplitConcat(b, c, '.');
    SplitNoSeparator(a, '.');
    SplitNoSeparator(b, '.');
    SplitNoSeparator(c, '.');
  }

  lemma TripleTextPlain(v: Version)
    ensures '-' !in TripleText(v) && '/' !in TripleText(v)
    ensures |TripleText(v)| > 0 && IsDigit(TripleText(v)[0])
  {
    DigitsArePlain(NatToString(v.major));
    DigitsArePlain(NatToString(v.minor));
    DigitsArePlain(NatToString(v.patch));
  }

  lemma NoDoubleDashAround(a: string, b: string)
    requires '-' !in a && '-' !in b
    ensures NoDoubleDash(a + "-" + b)
  {
    var s := a + "-" + b;
    forall i | 0 <= i < |s| - 1 && s[i] == '-' ensures s[i + 1] != '-' {
      assert i == |a|;
    }
  }

  lemma NoDoubleDashPlain(a: string)
    requires '-' !in a
    ensures NoDoubleDash(a)
  {
  }

  /** The text of a build that is a natural number or NaN holds digits or letters only. */
  lemma BuildTextPlain(b: Nullable<Number>)
    requires b.Some? && (b.value.Finite? ==> b.value.value >= 0)
    ensures '-' !in NumberText(b) && '.' !in NumberText(b) && '/' !in NumberText(b)
  {
    if b.value.Finite? {
      DigitsArePlain(NatToString(b.value.value));
    }
  }

  /** A pre-release type Parse can find again: no '-', '.' or '/' in it. */
  predicate PlainLabel(t: string) {
    '-' !in t && '.' !in t && '/' !in t
  }

  /** The version Parse reads back from Format(f, v): the suffix only when Format wrote it. */
  function ReadBack(f: TagFormatter, v: Version): Version {
    if HasSuffix(f, v) then v
    else Version(v.major, v.minor, v.patch, Null, Null)
  }

  /** The pieces of the triple read back as its three numbers. */
  lemma ReadTriple(v: Version)
    ensures var versionValues := Split(TripleText(v), '.');
      |versionValues| == 3 &&
      ParseInt(versionValues[0]) == Finite(v.major) &&
      ParseInt(versionValues[1]) == Finite(v.minor) &&
      ParseInt(versionValues[2]) == Finite(v.patch)
  {
    SplitTriple(v);
    ParseIntNatToString(v.major);
    ParseIntNatToString(v.minor);
    ParseIntNatToString(v.patch);
  }

  lemma ReadPlainTriple(f: TagFormatter, tag: string, v: Version)
    ensures ReadVersion(f, tag, TripleText(v)) == Ok(Version(v.major, v.minor, v.patch, Null, Null))
  {
    TripleTextPlain(v);
    SplitNoSeparator(TripleText(v), '-');
    ReadTriple(v);
  }

  /** `M.m.p-t.b` splits at '-' into the triple and `t.b`, and `t.b` at '.' into `t` and `b`. */
  lemma SplitSuffixed(core: string, t: string, bt: string)
    requires '-' !in core && PlainLabel(t) && '-' !in bt && '.' !in bt
    ensures Split(core + "-" + (t + "." + bt), '-') == [core, t + "." + bt]
    ensures Split(t + "." + bt, '.') == [t, bt]
  {
    var suffixText := t + "." + bt;
    assert core + "-" + suffixText == core + ['-'] + suffixText;
    SplitConcat(core, suffixText, '-');
    SplitNoSeparator(core, '-');
    SplitNoSeparator(suffixText, '-');
    assert suffixText == t + ['.'] + bt;
    SplitConcat(t, bt, '.');
    SplitNoSeparator(t, '.');
    SplitNoSeparator(bt, '.');
  }

  /** ReadVersion on text whose '-' and '.' pieces are known. */
  lemma ReadVersionOfPieces(f: TagFormatter, tag: string, afterPrefix: string, core: string, suffixText: string, v: Version)
    requires f.usePreReleases
    requires Split(afterPrefix, '-') == [core, suffixText]
    requires |Split(core, '.')| == 3
    requires ParseInt(Split(core, '.')[0]) == Finite(v.major)
    requires ParseInt(Split(core, '.')[1]) == Finite(v.minor)
    requires ParseInt(Split(core, '.')[2]) == Finite(v.patch)
    requires |Split(suffixText, '.')| == 2
    requires v.preReleaseType == Some(Split(suffixText, '.')[0])
    requires v.preReleaseBuild == Some(ParseInt(Split(suffixText, '.')[1]))
    ensures ReadVersion(f, tag, afterPrefix) == Ok(v)
  {
  }

  lemma ReadSuffixedTriple(f: TagFormatter, tag: string, v: Version)
    requires HasSuffix(f, v) && PlainLabel(v.preReleaseType.value)
    requires v.preReleaseBuild.Some? && (v.preReleaseBuild.value.Finite? ==> v.preReleaseBuild.value.value >= 0)
    ensures ReadVersion(f, tag, VersionPart(f, v)) == Ok(v)
  {
    var core := TripleText(v);
    var t, bt := v.preReleaseType.value, NumberText(v.preReleaseBuild);
    TripleTextPlain(v);
    BuildTextPlain(v.preReleaseBuild);
    assert VersionPart(f, v) == core + "-" + (t + "." + bt);
    SplitSuffixed(core, t, bt);
    ParseIntNumberToString(v.preReleaseBuild.value);
    ReadTriple(v);
    ReadVersionOfPieces(f, tag, VersionPart(f, v), core, t + "." + bt, v);
  }

  /**
    Parse(Format(v)) gives back v's major, minor and patch, and its type and
    build whenever Format wrote them, provided the configuration is
    RoundTripSafe, and a written type holds no
    '-', '.' or '/' with a build that is a natural number or NaN. The
    namespace itself is unconstrained.
   */
  lemma {:induction false} ParseFormatRoundTrip(f: TagFormatter, v: Version)
    requires RoundTripSafe(f)
    requires HasSuffix(f, v) ==>
      PlainLabel(v.preReleaseType.value) &&
      v.preReleaseBuild.Some? && (v.preReleaseBuild.value.Finite? ==> v.preReleaseBuild.value.value >= 0)
    ensures Parse(f, Format(f, v)) == Ok(ReadBack(f, v))
  {
    var rest := VersionPart(f, v);
    FormatShape(f, v);
    VersionPartReads(f, Format(f, v), v);
    StripLeadOfLead(f, rest);
  }

  /** A prefix ending in '/' with no namespace, such as "version/", reads back too. */
  lemma SlashPrefixRoundTrip(usePreReleases: bool, v: Version)
    requires var f := TagFormatter("version/", "", usePreReleases);
      HasSuffix(f, v) ==>
        PlainLabel(v.preReleaseType.value) &&
        v.preReleaseBuild.Some? && (v.preReleaseBuild.value.Finite? ==> v.preReleaseBuild.value.value >= 0)
    ensures var f := TagFormatter("version/", "", usePreReleases);
      Lead(f) == "version/" && Parse(f, Format(f, v)) == Ok(ReadBack(f, v))
  {
    var f := TagFormatter("version/", "", usePreReleases);
    assert '$' !in f.tagPrefix;
    ParseFormatRoundTrip(f, v);
  }

  /** What Format writes after the lead is plain and reads back through ReadVersion. */
  lemma VersionPartReads(f: TagFormatter, tag: string, v: Version)
    requires HasSuffix(f, v) ==>
      PlainLabel(v.preReleaseType.value) &&
      v.preReleaseBuild.Some? && (v.preReleaseBuild.value.Finite? ==> v.preReleaseBuild.value.value >= 0)
    ensures var rest := VersionPart(f, v);
      |rest| > 0 && IsDigit(rest[0]) && '/' !in rest && NoDoubleDash(rest) &&
      ReadVersion(f, tag, rest) == Ok(ReadBack(f, v))
  {
    var rest := VersionPart(f, v);
    TripleTextPlain(v);
    if HasSuffix(f, v) {
      BuildTextPlain(v.preReleaseBuild);
      NoDoubleDashAround(TripleText(v), v.preReleaseType.value + "." + NumberText(v.preReleaseBuild));
      assert rest == TripleText(v) + "-" + (v.preReleaseType.value + "." + NumberText(v.preReleaseBuild));
      ReadSuffixedTriple(f, tag, v);
    } else {
      NoDoubleDashPlain(rest);
      ReadPlainTriple(f, tag, v);
    }
    assert rest[0] == TripleText(v)[0];
  }

  // ---------------------------------------------------------------------------
  // A valid tag is one line

  predicate SingleLine(s: string) {
    forall i :: 0 <= i < |s| ==> !IsLineTerminator(s[i])
  }

  lemma {:induction false} DotGroupsSingleLine(s: string)
    requires DotGroups(s)
    ensures SingleLine(s)
    decreases |s|
  {
    if s != [] {
      var k :| 2 <= k <= |s| && AlnumRun(s[1..k]) && DotGroups(s[k..]);
      DotGroupsSingleLine(s[k..]);
      forall i | 0 <= i < |s| ensures !IsLineTerminator(s[i]) {
        if 1 <= i < k {
          assert s[i] == s[1..k][i - 1];
        } else if k <= i {
          assert s[i] == s[k..][i - k];
        }
      }
    }
  }

  lemma CoreSingleLine(s: string)
    requires VersionCore(s)
    ensures SingleLine(s)
  {
    var i, j :| 0 < i && i + 1 < j && j + 1 < |s| &&
      DigitRun(s[..i]) && AnyChar(s[i]) && DigitRun(s[i + 1..j]) && AnyChar(s[j]) && DigitRun(s[j + 1..]);
    CorePiecesSingleLine(s, i, j);
  }

  /** `M.m.p` split at its two separators holds no line terminator. */
  lemma CorePiecesSingleLine(s: string, i: nat, j: nat)
    requires 0 < i && i + 1 < j && j + 1 < |s|
    requires DigitRun(s[..i]) && AnyChar(s[i]) && DigitRun(s[i + 1..j]) && AnyChar(s[j]) && DigitRun(s[j + 1..])
    ensures SingleLine(s)
  {
    RunSingleLine(s, 0, i);
    RunSingleLine(s, i + 1, j);
    RunSingleLine(s, j + 1, |s|);
    forall n | 0 <= n < |s| ensures !IsLineTerminator(s[n]) {
      if n == i || n == j {
        assert AnyChar(s[n]);
      }
    }
  }

  /** A digit run inside `s` holds no line terminator. */
  lemma RunSingleLine(s: string, lo: nat, hi: nat)
    requires lo <= hi <= |s| && DigitRun(s[lo..hi])
    ensures forall n :: lo <= n < hi ==> !IsLineTerminator(s[n])
  {
    forall n | lo <= n < hi ensures !IsLineTerminator(s[n]) {
      assert s[n] == s[lo..hi][n - lo];
    }
  }

  /**
    The text IsValid accepts after the lead holds no line terminator: every
    separator it allows is a regex `.`, which does not match one.
   */
  lemma ValidTagSingleLine(f: TagFormatter, tag: string)
    requires IsValid(f, tag)
    ensures SingleLine(tag[|Lead(f)|..])
  {
    var s := tag[|Lead(f)|..];
    var k :| 0 <= k <= |s| && VersionCore(s[..k]) &&
      (k == |s| || (f.usePreReleases && PreReleaseSuffix(s[k..])));
    CoreSingleLine(s[..k]);
    if k < |s| {
      SuffixSingleLine(s[k..]);
    }
    JoinSingleLine(s, k);
  }

  /** The pre-release suffix holds no line terminator. */
  lemma SuffixSingleLine(t: string)
    requires PreReleaseSuffix(t)
    ensures SingleLine(t)
  {
    var m :| 2 <= m <= |t| && AlnumRun(t[1..m]) && DotGroups(t[m..]);
    DotGroupsSingleLine(t[m..]);
    forall n | 0 <= n < |t| ensures !IsLineTerminator(t[n]) {
      if 1 <= n < m {
        assert t[n] == t[1..m][n - 1];
      } else if m <= n {
        assert t[n] == t[m..][n - m];
      }
    }
  }

  /** Two single-line pieces make a single line. */
  lemma JoinSingleLine(s: string, k: nat)
    requires k <= |s| && SingleLine(s[..k]) && SingleLine(s[k..])
    ensures SingleLine(s)
  {
    forall n | 0 <= n < |s| ensures !IsLineTerminator(s[n]) {
      if n < k {
        assert s[n] == s[..k][n];
      } else {
        assert s[n] == s[k..][n - k];
      }
    }
  }

  // ---------------------------------------------------------------------------
  // Tags of other namespaces

  /** Without a namespace, a valid tag is the prefix followed by a digit. */
  lemma ValidWithoutNamespace(f: TagFormatter, tag: string)
    requires f.namespace == ""
    ensures IsValid(f, tag) ==> f.tagPrefix <= tag && |f.tagPrefix| < |tag| && IsDigit(tag[|f.tagPrefix|])
  {
    if IsValid(f, tag) {
      ValidStartsWithDigit(f, tag);
    }
  }

  /** A valid tag is the lead followed by a digit. */
  lemma ValidStartsWithDigit(f: TagFormatter, tag: string)
    requires IsValid(f, tag)
    ensures Lead(f) <= tag && |Lead(f)| < |tag| && IsDigit(tag[|Lead(f)|])
  {
    var s := tag[|Lead(f)|..];
    var k :| 0 <= k <= |s| && VersionCore(s[..k]) &&
      (k == |s| || (f.usePreReleases && PreReleaseSuffix(s[k..])));
    var i, j :| 0 < i && i + 1 < j && j + 1 < |s[..k]| &&
      DigitRun(s[..k][..i]) && AnyChar(s[..k][i]) && DigitRun(s[..k][i + 1..j]) &&
      AnyChar(s[..k][j]) && DigitRun(s[..k][j + 1..]);
    assert s[..k][..i][0] == tag[|Lead(f)|];
  }

  /**
    Without a namespace and with an empty prefix, a tag of some namespace
    (one that starts with a non-digit and a '/') is not valid, so such tags
    are never taken for the plain release line.
   */
  lemma NamespacedTagRejected(f: TagFormatter, ns: string, rest: string)
    requires f.namespace == "" && f.tagPrefix == ""
    requires |ns| > 0 && !IsDigit(ns[0])
    ensures !IsValid(f, ns + "/" + rest)
  {
    ValidWithoutNamespace(f, ns + "/" + rest);
    assert (ns + "/" + rest)[0] == ns[0];
  }

  // ---------------------------------------------------------------------------
  // Parse on texts Format does not write

  /**
    Parse fails exactly when the major, or a minor or patch that is
    present, does not start with a number (parseInt gives NaN); the
    pre-release build is never checked.
   */
  lemma ParseFailsOnNaN(f: TagFormatter, tag: string)
    requires tag != ""
    ensures var versionValues :=
        Split(Split(StripLead(f.tagPrefix, f.namespace, PrefixPlaceholder, NamespacePlaceholder, tag), '-')[0], '.');
      Parse(f, tag).Err? <==>
        ParseInt(versionValues[0]).NaN? ||
        (|versionValues| > 1 && ParseInt(versionValues[1]).NaN?) ||
        (|versionValues| > 2 && ParseInt(versionValues[2]).NaN?)
  {
  }

  /** A missing minor and patch read as 0: `M` alone is M.0.0, `M.m` is M.m.0. */
  lemma MissingFieldsAreZero(f: TagFormatter, tag: string, a: nat, b: nat)
    ensures ReadVersion(f, tag, NatToString(a)) == Ok(Version(a, 0, 0, Null, Null))
    ensures ReadVersion(f, tag, NatToString(a) + "." + NatToString(b)) == Ok(Version(a, b, 0, Null, Null))
  {
    MajorOnly(f, tag, a);
    MajorAndMinor(f, tag, a, b);
  }

  lemma MajorOnly(f: TagFormatter, tag: string, a: nat)
    ensures ReadVersion(f, tag, NatToString(a)) == Ok(Version(a, 0, 0, Null, Null))
  {
    var x := NatToString(a);
    DigitsArePlain(x);
    SplitNoSeparator(x, '-');
    ReadSingle(a);
  }

  lemma ReadSingle(a: nat)
    ensures var versionValues := Split(NatToString(a), '.');
      |versionValues| == 1 && ParseInt(versionValues[0]) == Finite(a)
  {
    DigitsArePlain(NatToString(a));
    SplitNoSeparator(NatToString(a), '.');
    ParseIntNatToString(a);
  }

  lemma MajorAndMinor(f: TagFormatter, tag: string, a: nat, b: nat)
    ensures ReadVersion(f, tag, NatToString(a) + "." + NatToString(b)) == Ok(Version(a, b, 0, Null, Null))
  {
    PairPlain(a, b);
    SplitNoSeparator(NatToString(a) + "." + NatToString(b), '-');
    ReadPair(a, b);
  }

  lemma PairPlain(a: nat, b: nat)
    ensures '-' !in NatToString(a) + "." + NatToString(b)
  {
    DigitsArePlain(NatToString(a));
    DigitsArePlain(NatToString(b));
  }

  lemma ReadPair(a: nat, b: nat)
    ensures var versionValues := Split(NatToString(a) + "." + NatToString(b), '.');
      |versionValues| == 2 && ParseInt(versionValues[0]) == Finite(a) && ParseInt(versionValues[1]) == Finite(b)
  {
    SplitPair(a, b);
    ParseIntNatToString(a);
    ParseIntNatToString(b);
  }

  /** `M.m` splits at '.' into its two numbers. */
  lemma SplitPair(a: nat, b: nat)
    ensures Split(NatToString(a) + "." + NatToString(b), '.') == [NatToString(a), NatToString(b)]
  {
    var x, y := NatToString(a), NatToString(b);
    DigitsArePlain(x);
    DigitsArePlain(y);
    assert x + "." + y == x + ['.'] + y;
    SplitConcat(x, y, '.');
    SplitNoSeparator(x, '.');
    SplitNoSeparator(y, '.');
  }

  /**
    Because `\.` is cooked to `.` in DefaultTagFormatter's regex, any character
    other than a line terminator separates the numbers: `v1x2y3` is a
    valid tag for the prefix `v`.
   */
  lemma LooseSeparators(f: TagFormatter, a: nat, b: nat, c: nat, x: char, y: char)
    requires AnyChar(x) && AnyChar(y)
    ensures IsValid(f, Lead(f) + (NatToString(a) + [x] + NatToString(b) + [y] + NatToString(c)))
  {
    var p, q, r := NatToString(a), NatToString(b), NatToString(c);
    assert DigitRun(p) && DigitRun(q) && DigitRun(r);
    LooseCore(p, q, r, x, y);
    CoreIsValid(f, p + [x] + q + [y] + r);
  }

  /** Three digit runs joined by any two non-terminator characters form a version core. */
  lemma LooseCore(p: string, q: string, r: string, x: char, y: char)
    requires DigitRun(p) && DigitRun(q) && DigitRun(r) && AnyChar(x) && AnyChar(y)
    ensures VersionCore(p + [x] + q + [y] + r)
  {
    var core := p + [x] + q + [y] + r;
    var i, j := |p|, |p| + 1 + |q|;
    assert core[..i] == p;
    assert core[i + 1..j] == q;
    assert core[j + 1..] == r;
    assert core[i] == x && core[j] == y;
  }

  /** The lead followed by a version core alone is a valid tag. */
  lemma CoreIsValid(f: TagFormatter, core: string)
    requires VersionCore(core)
    ensures IsValid(f, Lead(f) + core)
  {
    assert core[..|core|] == core;
    assert (Lead(f) + core)[|Lead(f)|..] == core;
  }
}
