/**
  The default version formatter: fills the `version_format` template by
  replacing, in a fixed order, the first occurrence of each `${...}` field.
 */
module VersionFormat {
  import opened Js
  import opened Types
  import TagFormat

  /** The eight `${...}` fields of a template, in the order they are filled. */
  datatype FieldNames = FieldNames(
    major: string, minor: string, patch: string, separator: string,
    preReleaseType: string, buildSeparator: string, preReleaseBuild: string, increment: string)

  /** The field names the formatter looks for (the separators keep DefaultVersionFormatter's spelling, `seperator`). */
  const Fields := FieldNames(
    "${major}", "${minor}", "${patch}", "${seperator}",
    "${preReleaseType}", "${buildSeperator}", "${preReleaseBuild}", "${increment}")

  /** `M.m.p` then the separator, type, build separator and build fields. */
  function DefaultTemplate(n: FieldNames): string {
    n.major + "." + n.minor + "." + n.patch + n.separator + n.preReleaseType + n.buildSeparator + n.preReleaseBuild
  }

  /** The `version_format` used when none is configured. */
  const DefaultVersionFormat := DefaultTemplate(Fields)

  /** The formatter's configuration: the template. */
  datatype VersionFormatter = VersionFormatter(formatString: string)

  /** `preReleaseType?.toString() ?? ''` */
  function TypeText(t: Nullable<string>): string {
    match t
    case Null => ""
    case Some(s) => s
  }

  /** `preReleaseBuild?.toString() ?? ''` */
  function BuildText(b: Nullable<Number>): string {
    match b
    case Null => ""
    case Some(n) => NumberToString(n)
  }

  /** The first seven replacements: the version fields, in the order DefaultVersionFormatter fills them. */
  function FillVersion(s: string, v: Version, n: FieldNames): string {
    var s := Replace(s, n.major, NatToString(v.major));
    var s := Replace(s, n.minor, NatToString(v.minor));
    var s := Replace(s, n.patch, NatToString(v.patch));
    var s := Replace(s, n.separator, if TruthyString(v.preReleaseType) then "-" else "");
    var s := Replace(s, n.preReleaseType, TypeText(v.preReleaseType));
    var s := Replace(s, n.buildSeparator, if TruthyString(v.preReleaseType) then "." else "");
    Replace(s, n.preReleaseBuild, BuildText(v.preReleaseBuild))
  }

  /** Format: the seven version fields, then the increment. */
  function Format(fmt: VersionFormatter, info: VersionInformation): string {
    Replace(FillVersion(fmt.formatString, info.version, Fields), Fields.increment, NatToString(info.increment))
  }


  // ---------------------------------------------------------------------------
  // Properties

  /** Every field name starts with '$'. */
  predicate DollarFields(n: FieldNames) {
    |n.major| > 0 && n.major[0] == '$' && |n.minor| > 0 && n.minor[0] == '$' &&
    |n.patch| > 0 && n.patch[0] == '$' && |n.separator| > 0 && n.separator[0] == '$' &&
    |n.preReleaseType| > 0 && n.preReleaseType[0] == '$' &&
    |n.buildSeparator| > 0 && n.buildSeparator[0] == '$' &&
    |n.preReleaseBuild| > 0 && n.preReleaseBuild[0] == '$' &&
    |n.increment| > 0 && n.increment[0] == '$'
  }

  lemma FieldsStartWithDollar()
    ensures DollarFields(Fields)
  {
  }

  /** A text without '$' holds no field. */
  lemma DollarFreeHasNoField(s: string, pat: string)
    requires '$' !in s && |pat| > 0 && pat[0] == '$'
    ensures forall j :: !OccursAt(s, pat, j)
  {
    forall j | 0 <= j && j + |pat| <= |s| ensures !OccursAt(s, pat, j) {
      assert s[j..j + |pat|][0] == s[j];
    }
  }

  /** A field is found right after a text without '$', and a value without '$' is put in verbatim. */
  lemma ReplaceField(a: string, pat: string, b: string, value: string)
    requires '$' !in a && |pat| > 0 && pat[0] == '$' && '$' !in value
    ensures Replace(a + pat + b, pat, value) == a + value + b
  {
    forall j | 0 <= j < |a| ensures !OccursAt(a + pat + b, pat, j) {
      assert (a + pat + b)[j] == a[j];
      if j + |pat| <= |a + pat + b| {
        assert (a + pat + b)[j..j + |pat|][0] == a[j];
      }
    }
    ReplaceFirst(a, pat, b, value);
  }

  lemma DollarFreeUnchanged(s: string, pat: string, value: string)
    requires '$' !in s && |pat| > 0 && pat[0] == '$'
    ensures Replace(s, pat, value) == s
  {
    DollarFreeHasNoField(s, pat);
    ReplaceAbsent(s, pat, value);
  }

  /** A template without '$' comes out unchanged. */
  lemma PlainTemplateUnchanged(fmt: VersionFormatter, info: VersionInformation)
    requires '$' !in fmt.formatString
    ensures Format(fmt, info) == fmt.formatString
  {
    var s, v, n := fmt.formatString, info.version, Fields;
    FieldsStartWithDollar();
    DollarFreeUnchanged(s, n.major, NatToString(v.major));
    DollarFreeUnchanged(s, n.minor, NatToString(v.minor));
    DollarFreeUnchanged(s, n.patch, NatToString(v.patch));
    DollarFreeUnchanged(s, n.separator, if TruthyString(v.preReleaseType) then "-" else "");
    DollarFreeUnchanged(s, n.preReleaseType, TypeText(v.preReleaseType));
    DollarFreeUnchanged(s, n.buildSeparator, if TruthyString(v.preReleaseType) then "." else "");
    DollarFreeUnchanged(s, n.preReleaseBuild, BuildText(v.preReleaseBuild));
    DollarFreeUnchanged(s, n.increment, NatToString(info.increment));
  }

  lemma DigitsHaveNoDollar(k: nat)
    ensures '$' !in NatToString(k)
  {
    var s := NatToString(k);
    forall i | 0 <= i < |s| ensures s[i] != '$' {
      assert IsDigit(s[i]);
    }
  }

  lemma NumberTextHasNoDollar(x: Number)
    ensures '$' !in NumberToString(x)
  {
    match x
    case NaN =>
    case Finite(k) =>
      if k < 0 {
        DigitsHaveNoDollar(-k);
      } else {
        DigitsHaveNoDollar(k);
      }
  }

  /** What the seven version fields of the default template become, in template order. */
  function DefaultText(v: Version): string {
    NatToString(v.major) + "." + NatToString(v.minor) + "." + NatToString(v.patch) +
    (if TruthyString(v.preReleaseType) then "-" else "") + TypeText(v.preReleaseType) +
    (if TruthyString(v.preReleaseType) then "." else "") + BuildText(v.preReleaseBuild)
  }

  lemma DefaultTextHasNoDollar(v: Version)
    requires v.preReleaseType.Some? ==> '$' !in v.preReleaseType.value
    ensures '$' !in DefaultText(v)
  {
    DigitsHaveNoDollar(v.major);
    DigitsHaveNoDollar(v.minor);
    DigitsHaveNoDollar(v.patch);
    if v.preReleaseBuild.Some? {
      NumberTextHasNoDollar(v.preReleaseBuild.value);
    }
  }

  /** The first three fields, `major.minor.patch`, followed by any text. */
  lemma FillHead(n: FieldNames, x1: string, x2: string, x3: string, rest: string)
    requires DollarFields(n)
    requires '$' !in x1 && '$' !in x2 && '$' !in x3
    ensures Replace(Replace(Replace(n.major + "." + n.minor + "." + n.patch + rest,
              n.major, x1), n.minor, x2), n.patch, x3)
            == x1 + "." + x2 + "." + x3 + rest
  {
    FillSeparated(n, ".", x1, x2, x3, rest);
  }

  /** The first three fields with any separator without '$' between them. */
  lemma FillSeparated(n: FieldNames, d: string, x1: string, x2: string, x3: string, rest: string)
    requires DollarFields(n) && '$' !in d
    requires '$' !in x1 && '$' !in x2 && '$' !in x3
    ensures Replace(Replace(Replace(n.major + d + n.minor + d + n.patch + rest,
              n.major, x1), n.minor, x2), n.patch, x3)
            == x1 + d + x2 + d + x3 + rest
  {
    var b1, b2 := d + n.minor + d + n.patch + rest, d + n.patch + rest;
    HeadSteps(n.major, n.minor, n.patch, d, rest, x1, x2);
    ReplaceField([], n.major, b1, x1);
    ReplaceField(x1 + d, n.minor, b2, x2);
    ReplaceField(x1 + d + x2 + d, n.patch, rest, x3);
  }

  /** The regroupings of the three-field head before each replacement. */
  lemma HeadSteps(m: string, n: string, p: string, d: string, rest: string, x1: string, x2: string)
    ensures m + d + n + d + p + rest == [] + m + (d + n + d + p + rest)
    ensures [] + x1 + (d + n + d + p + rest) == (x1 + d) + n + (d + p + rest)
    ensures (x1 + d) + x2 + (d + p + rest) == (x1 + d + x2 + d) + p + rest
  {
  }

  /** The last four fields, after a text without '$' and followed by any text. */
  lemma FillRest(n: FieldNames, a: string, x4: string, x5: string, x6: string, x7: string, tail: string)
    requires DollarFields(n) && '$' !in a
    requires '$' !in x4 && '$' !in x5 && '$' !in x6 && '$' !in x7
    ensures Replace(Replace(Replace(Replace(a + n.separator + n.preReleaseType + n.buildSeparator + n.preReleaseBuild + tail,
              n.separator, x4), n.preReleaseType, x5), n.buildSeparator, x6), n.preReleaseBuild, x7)
            == a + x4 + x5 + x6 + x7 + tail
  {
    var r7 := n.preReleaseBuild + tail;
    var r6 := n.buildSeparator + r7;
    var r5 := n.preReleaseType + r6;
    var s3 := a + n.separator + n.preReleaseType + n.buildSeparator + n.preReleaseBuild + tail;
    assert s3 == a + n.separator + r5;
    ReplaceField(a, n.separator, r5, x4);
    var s4 := Replace(s3, n.separator, x4);
    var a5 := a + x4;
    assert s4 == a5 + n.preReleaseType + r6;
    ReplaceField(a5, n.preReleaseType, r6, x5);
    var s5 := Replace(s4, n.preReleaseType, x5);
    var a6 := a5 + x5;
    assert s5 == a6 + n.buildSeparator + r7;
    ReplaceField(a6, n.buildSeparator, r7, x6);
    var s6 := Replace(s5, n.buildSeparator, x6);
    var a7 := a6 + x6;
    assert s6 == a7 + n.preReleaseBuild + tail;
    ReplaceField(a7, n.preReleaseBuild, tail, x7);
  }

  /**
    The seven fields of the default template, each replaced by a value
    without '$', followed by any text: the values in template order with
    the two dots between the first three, and the text after them intact.
   */
  lemma FillTemplate(n: FieldNames, x1: string, x2: string, x3: string, x4: string,
                     x5: string, x6: string, x7: string, tail: string)
    requires DollarFields(n)
    requires '$' !in x1 && '$' !in x2 && '$' !in x3 && '$' !in x4
    requires '$' !in x5 && '$' !in x6 && '$' !in x7
    ensures Replace(Replace(Replace(Replace(Replace(Replace(Replace(DefaultTemplate(n) + tail,
              n.major, x1), n.minor, x2), n.patch, x3), n.separator, x4),
              n.preReleaseType, x5), n.buildSeparator, x6), n.preReleaseBuild, x7)
            == x1 + "." + x2 + "." + x3 + x4 + x5 + x6 + x7 + tail
  {
    var rest := n.separator + n.preReleaseType + n.buildSeparator + n.preReleaseBuild + tail;
    Regroup(n.major + "." + n.minor + "." + n.patch, n.separator, n.preReleaseType, n.buildSeparator, n.preReleaseBuild, tail);
    FillHead(n, x1, x2, x3, rest);
    Regroup(x1 + "." + x2 + "." + x3, n.separator, n.preReleaseType, n.buildSeparator, n.preReleaseBuild, tail);
    FillRest(n, x1 + "." + x2 + "." + x3, x4, x5, x6, x7, tail);
  }

  /** Concatenation regrouped: the head, then the four later fields and the tail. */
  lemma Regroup(head: string, a: string, b: string, c: string, d: string, tail: string)
    ensures head + a + b + c + d + tail == head + (a + b + c + d + tail)
  {
  }

  /**
    The seven version fields of the default template, followed by any
    text, come out as `M.m.p`, then `-type.` when the type is non-empty,
    then the build; the text after them is left alone.
   */
  lemma FillDefault(n: FieldNames, v: Version, tail: string)
    requires DollarFields(n)
    requires v.preReleaseType.Some? ==> '$' !in v.preReleaseType.value
    ensures FillVersion(DefaultTemplate(n) + tail, v, n) == DefaultText(v) + tail
  {
    var ma, mi, pa := NatToString(v.major), NatToString(v.minor), NatToString(v.patch);
    DigitsHaveNoDollar(v.major);
    DigitsHaveNoDollar(v.minor);
    DigitsHaveNoDollar(v.patch);
    var sep := if TruthyString(v.preReleaseType) then "-" else "";
    var ty := TypeText(v.preReleaseType);
    var bsep := if TruthyString(v.preReleaseType) then "." else "";
    var bt := BuildText(v.preReleaseBuild);
    if v.preReleaseBuild.Some? {
      NumberTextHasNoDollar(v.preReleaseBuild.value);
    }
    FillTemplate(n, ma, mi, pa, sep, ty, bsep, bt, tail);
  }

  /** The default template alone: the seven fields filled, the increment absent. */
  lemma DefaultTemplateFills(n: FieldNames, v: Version, inc: string)
    requires DollarFields(n)
    requires v.preReleaseType.Some? ==> '$' !in v.preReleaseType.value
    ensures Replace(FillVersion(DefaultTemplate(n), v, n), n.increment, inc) == DefaultText(v)
  {
    FillDefault(n, v, "");
    assert DefaultTemplate(n) + "" == DefaultTemplate(n);
    assert DefaultText(v) + "" == DefaultText(v);
    DefaultTextHasNoDollar(v);
    DollarFreeUnchanged(DefaultText(v), n.increment, inc);
  }

  /** The default template with `+` and the increment field appended. */
  function IncrementTemplate(n: FieldNames): string {
    DefaultTemplate(n) + ("+" + n.increment)
  }

  lemma IncrementTemplateFills(n: FieldNames, v: Version, inc: string)
    requires DollarFields(n) && '$' !in inc
    requires v.preReleaseType.Some? ==> '$' !in v.preReleaseType.value
    ensures Replace(FillVersion(IncrementTemplate(n), v, n), n.increment, inc) == DefaultText(v) + "+" + inc
  {
    FillDefault(n, v, "+" + n.increment);
    DefaultTextHasNoDollar(v);
    var filled := DefaultText(v);
    assert filled + ("+" + n.increment) == (filled + "+") + n.increment + "";
    ReplaceField(filled + "+", n.increment, "", inc);
    assert filled + "+" + inc + "" == filled + "+" + inc;
  }

  /**
    On a version the engine produces, type and build both present or both
    absent and the type non-empty, the default fields write what the tag
    formatter writes after an empty prefix.
   */
  lemma DefaultTextIsTagText(v: Version)
    requires v.preReleaseType.Some? <==> v.preReleaseBuild.Some?
    requires v.preReleaseType.Some? ==> v.preReleaseType.value != ""
    ensures DefaultText(v) == TagFormat.Format(TagFormat.TagFormatter("", "", true), v)
  {
    var triple := TagFormat.TripleText(v);
    assert "" + triple == triple;
    if v.preReleaseType.Some? {
      assert DefaultText(v) == triple + "-" + v.preReleaseType.value + "." + NumberText(v.preReleaseBuild);
    } else {
      assert DefaultText(v) == triple + "" + "" + "" + "";
    }
  }

  /**
    For a version the engine produces (type and build both present or both
    absent, the type non-empty and free of '$'), the default template
    writes exactly the text the tag formatter puts after its prefix.
   */
  lemma DefaultFormatIsTagText(info: VersionInformation)
    requires info.version.preReleaseType.Some? <==> info.version.preReleaseBuild.Some?
    requires info.version.preReleaseType.Some? ==>
      info.version.preReleaseType.value != "" && '$' !in info.version.preReleaseType.value
    ensures Format(VersionFormatter(DefaultVersionFormat), info) ==
      TagFormat.Format(TagFormat.TagFormatter("", "", true), info.version)
  {
    FieldsStartWithDollar();
    DefaultTemplateFills(Fields, info.version, NatToString(info.increment));
    DefaultTextIsTagText(info.version);
  }

  /** The template `M.m.p-type.build+increment`. */
  const IncrementFormat := IncrementTemplate(Fields)

  /** With `+${increment}` appended, the commit count follows the version after a '+'. */
  lemma IncrementFormatAppendsCount(info: VersionInformation)
    requires info.version.preReleaseType.Some? ==> '$' !in info.version.preReleaseType.value
    ensures Format(VersionFormatter(IncrementFormat), info) ==
      DefaultText(info.version) + "+" + NatToString(info.increment)
  {
    FieldsStartWithDollar();
    DigitsHaveNoDollar(info.increment);
    IncrementTemplateFills(Fields, info.version, NatToString(info.increment));
  }

  /** After a text without '$', a field `pat0` holds no other field `pat` that differs from it at index `k`. */
  lemma OtherFieldAbsent(a: string, pat0: string, pat: string, k: nat)
    requires '$' !in a && |pat0| > 0 && pat0[0] == '$' && '$' !in pat0[1..]
    requires 0 < k < |pat| && k < |pat0| && pat[0] == '$' && pat[k] != pat0[k]
    ensures forall j :: !OccursAt(a + pat0, pat, j)
  {
    var s := a + pat0;
    forall j | 0 <= j && j + |pat| <= |s| ensures !OccursAt(s, pat, j) {
      assert s[j..j + |pat|][0] == s[j];
      if j < |a| {
        assert s[j] == a[j];
      } else if j == |a| {
        assert s[j..j + |pat|][k] == pat0[k];
      } else {
        assert s[j] == pat0[1..][j - |a| - 1];
      }
    }
  }

  /**
    Only the first occurrence of a field is filled: in `${major}x${major}`,
    with `x` free of '$', the second `${major}` stays in the output.
   */
  lemma OnlyFirstOccurrenceFilled(info: VersionInformation, between: string)
    requires '$' !in between
    ensures Format(VersionFormatter(Fields.major + between + Fields.major), info) ==
      NatToString(info.version.major) + between + Fields.major
  {
    var v, n := info.version, Fields;
    var ma := NatToString(v.major);
    DigitsHaveNoDollar(v.major);
    FieldsStartWithDollar();
    ReplaceField("", n.major, between + n.major, ma);
    assert "" + n.major + (between + n.major) == n.major + between + n.major;
    var a := ma + between;
    var s := a + n.major;
    assert "" + ma + (between + n.major) == s;
    DigitsHaveNoDollar(v.major);
    assert '$' !in a;
    NoNumberFieldAfter(a);
    NoSuffixFieldAfter(a);
    ReplaceAbsent(s, n.minor, NatToString(v.minor));
    ReplaceAbsent(s, n.patch, NatToString(v.patch));
    ReplaceAbsent(s, n.separator, if TruthyString(v.preReleaseType) then "-" else "");
    ReplaceAbsent(s, n.preReleaseType, TypeText(v.preReleaseType));
    ReplaceAbsent(s, n.buildSeparator, if TruthyString(v.preReleaseType) then "." else "");
    ReplaceAbsent(s, n.preReleaseBuild, BuildText(v.preReleaseBuild));
    ReplaceAbsent(s, n.increment, NatToString(info.increment));
  }

  lemma MajorTailPlain()
    ensures |Fields.major| > 0 && Fields.major[0] == '$' && '$' !in Fields.major[1..]
  {
  }

  /** After `${major}` alone, `${minor}`, `${patch}` and `${seperator}` do not occur. */
  lemma NoNumberFieldAfter(a: string)
    requires '$' !in a
    ensures forall j :: !OccursAt(a + Fields.major, Fields.minor, j)
    ensures forall j :: !OccursAt(a + Fields.major, Fields.patch, j)
    ensures forall j :: !OccursAt(a + Fields.major, Fields.separator, j)
  {
    MajorTailPlain();
    OtherFieldAbsent(a, Fields.major, Fields.minor, 3);
    OtherFieldAbsent(a, Fields.major, Fields.patch, 2);
    OtherFieldAbsent(a, Fields.major, Fields.separator, 2);
  }

  /** After `${major}` alone, none of the type, build and increment fields occurs. */
  lemma NoSuffixFieldAfter(a: string)
    requires '$' !in a
    ensures forall j :: !OccursAt(a + Fields.major, Fields.preReleaseType, j)
    ensures forall j :: !OccursAt(a + Fields.major, Fields.buildSeparator, j)
    ensures forall j :: !OccursAt(a + Fields.major, Fields.preReleaseBuild, j)
    ensures forall j :: !OccursAt(a + Fields.major, Fields.increment, j)
  {
    MajorTailPlain();
    OtherFieldAbsent(a, Fields.major, Fields.preReleaseType, 2);
    OtherFieldAbsent(a, Fields.major, Fields.buildSeparator, 2);
    OtherFieldAbsent(a, Fields.major, Fields.preReleaseBuild, 2);
    OtherFieldAbsent(a, Fields.major, Fields.increment, 2);
  }

  // ---------------------------------------------------------------------------
  // The template the tests use

  lemma SmallDigits()
    ensures NatToString(0) == "0" && NatToString(1) == "1"
  {
  }

  lemma ReleaseText(v: Version)
    requires v == Version(0, 0, 1, Null, Null)
    ensures DefaultText(v) + "+" + NatToString(1) == "0.0.1+1"
  {
    SmallDigits();
    assert DefaultText(v) == "0" + "." + "0" + "." + "1" + "" + "" + "" + "";
  }

  lemma PreReleaseText(v: Version)
    requires v == Version(0, 0, 1, Some("pre"), Some(Finite(0)))
    ensures DefaultText(v) + "+" + NatToString(0) == "0.0.1-pre.0+0"
  {
    SmallDigits();
    assert NumberToString(Finite(0)) == "0";
    assert DefaultText(v) == "0" + "." + "0" + "." + "1" + "-" + "pre" + "." + "0";
  }

  /** With the `+${increment}` template, 0.0.1 after one further commit is written "0.0.1+1". */
  lemma ReleaseWithIncrementText(info: VersionInformation)
    requires info.version == Version(0, 0, 1, Null, Null) && info.increment == 1
    ensures Format(VersionFormatter(IncrementFormat), info) == "0.0.1+1"
  {
    IncrementFormatAppendsCount(info);
    ReleaseText(info.version);
  }

  /** With the `+${increment}` template, the first pre-release build is written "0.0.1-pre.0+0". */
  lemma PreReleaseWithIncrementText(info: VersionInformation)
    requires info.version == Version(0, 0, 1, Some("pre"), Some(Finite(0))) && info.increment == 0
    ensures Format(VersionFormatter(IncrementFormat), info) == "0.0.1-pre.0+0"
  {
    IncrementFormatAppendsCount(info);
    PreReleaseText(info.version);
  }
}
