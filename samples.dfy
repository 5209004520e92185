/** Concrete instances of the selector's behaviour: sample
    selections and the parser's treatment of specific strings. */
module FixesExamples {
  import opened Wrappers
  import opened Strings
  import opened Semver
  import opened Fixes

  lemma SampleTexts()
    ensures DecimalString(1) + "." + DecimalString(2) + "." + DecimalString(3) + ".4" == "1.2.3.4"
    ensures "v" + DecimalString(0) + "." + DecimalString(1) + "." + DecimalString(0) + "-foo" == "v0.1.0-foo"
  {
    assert DecimalString(0) == "0" && DecimalString(1) == "1";
    assert DecimalString(2) == "2" && DecimalString(3) == "3";
  }

  /** Text after the third number is not checked, so a four-part version is
      read as its first three parts ... */
  lemma FourPartsAccepted()
    ensures ParseVersion("1.2.3.4") == Parsed(Version(1, 2, 3), None)
  {
    ParseVersionRoundTrip(1, 2, 3, ".4");
    SampleTexts();
  }

  /** ... and so is a version with a pre-release suffix. */
  lemma SuffixAccepted()
    ensures ParseVersion("v0.1.0-foo") == Parsed(Version(0, 1, 0), None)
  {
    ParseVersionRoundTrip(0, 1, 0, "-foo");
    SampleTexts();
  }

  /** An entry named after a version's rendering plus ".md" is selected
      exactly when that version lies within the bounds. */
  lemma NamedAfter(v: Version, b: Bounds)
    ensures var e := Entry(VersionedFile(v.major, v.minor, v.patch, "").String() + ".md", false);
      Selected([e], b)
      == if (b.low.Some? ==> !Less(v, b.low.value)) && (b.high.Some? ==> !Less(b.high.value, v))
         then [VersionedFile(v.major, v.minor, v.patch, e.name)] else []
  {
    var f := VersionedFile(v.major, v.minor, v.patch, "");
    var name := f.String() + ".md";
    assert HasSuffix(name, ".md");
    assert Stem(name) == f.String();
    StringRoundTrip(f, "");
    assert f.String() + "" == f.String();
    SelectedSingle(Entry(name, false), b);
  }

  lemma Name110()
    ensures VersionedFile(0, 110, 0, "").String() == "v0.110.0"
    ensures VersionedFile(0, 110, 0, "").String() + ".md" == "v0.110.0.md"
  {
    assert DecimalString(110) == "110";
  }

  lemma Name120()
    ensures VersionedFile(0, 120, 3, "").String() == "v0.120.3"
    ensures VersionedFile(0, 120, 3, "").String() + ".md" == "v0.120.3.md"
  {
    assert DecimalString(120) == "120";
  }

  lemma Name156()
    ensures VersionedFile(0, 156, 0, "").String() + ".md" == "v0.156.0.md"
  {
    assert DecimalString(156) == "156";
  }

  lemma ExampleSingles(e1: Entry, e2: Entry, e3: Entry, b: Bounds)
    requires e1 == Entry("v0.110.0.md", false) && e2 == Entry("v0.120.3.md", false) && e3 == Entry("v0.156.0.md", false)
    requires b == Bounds(Some(Version(0, 111, 0)), Some(Version(0, 150, 0)))
    ensures Selected([e1], b) == [] && Selected([e3], b) == []
    ensures Selected([e2], b) == [VersionedFile(0, 120, 3, e2.name)]
  {
    Name110();
    Name120();
    Name156();
    NamedAfter(Version(0, 110, 0), b);
    NamedAfter(Version(0, 120, 3), b);
    NamedAfter(Version(0, 156, 0), b);
  }

  /** Notes for v0.110.0, v0.120.3 and v0.156.0 with the range
      [v0.111.0, v0.150.0]: only v0.120.3 is selected. */
  lemma SelectionExample(e1: Entry, e2: Entry, e3: Entry, b: Bounds)
    requires e1 == Entry("v0.110.0.md", false) && e2 == Entry("v0.120.3.md", false) && e3 == Entry("v0.156.0.md", false)
    requires b == Bounds(Some(Version(0, 111, 0)), Some(Version(0, 150, 0)))
    ensures Selected([e1, e2, e3], b) == [VersionedFile(0, 120, 3, e2.name)]
  {
    ExampleSingles(e1, e2, e3, b);
    SelectedAppend([e1], [e2], b);
    SelectedAppend([e1, e2], [e3], b);
    assert [e1] + [e2] == [e1, e2];
    assert [e1, e2] + [e3] == [e1, e2, e3];
  }

  lemma OrderSingles(e1: Entry, e2: Entry)
    requires e1 == Entry("v0.110.0.md", false) && e2 == Entry("v0.120.3.md", false)
    ensures Selected([e1], Bounds(None, None)) == [VersionedFile(0, 110, 0, e1.name)]
    ensures Selected([e2], Bounds(None, None)) == [VersionedFile(0, 120, 3, e2.name)]
  {
    Name110();
    Name120();
    NamedAfter(Version(0, 110, 0), Bounds(None, None));
    NamedAfter(Version(0, 120, 3), Bounds(None, None));
  }

  lemma OrderSelection(e1: Entry, e2: Entry)
    requires e1 == Entry("v0.110.0.md", false) && e2 == Entry("v0.120.3.md", false)
    ensures Selected([e1, e2], Bounds(None, None))
         == [VersionedFile(0, 110, 0, e1.name), VersionedFile(0, 120, 3, e2.name)]
  {
    OrderSingles(e1, e2);
    SelectedAppend([e1], [e2], Bounds(None, None));
    assert [e1] + [e2] == [e1, e2];
  }

  /** Two files of different versions have only one sorted order. */
  lemma SortedPair(f1: VersionedFile, f2: VersionedFile, sorted: seq<VersionedFile>)
    requires Less(f1.Triple(), f2.Triple())
    requires Ascending(sorted)
    requires multiset(sorted) == multiset([f1, f2])
    ensures sorted == [f1, f2]
  {
    assert |sorted| == 2;
    assert sorted == [sorted[0], sorted[1]];
    var a, b := sorted[0], sorted[1];
    assert multiset{a, b} == multiset{f1, f2};
    assert NotAfter(a, b);
    assert f1 == a || f1 == b;
    assert f2 == a || f2 == b;
  }

  /** Notes for v0.110.0 and v0.120.3 without bounds: every sorted permutation
      of the selection lists v0.110.0 first. */
  lemma OrderExample(e1: Entry, e2: Entry, sorted: seq<VersionedFile>)
    requires e1 == Entry("v0.110.0.md", false) && e2 == Entry("v0.120.3.md", false)
    requires Ascending(sorted)
    requires multiset(sorted) == multiset(Selected([e1, e2], Bounds(None, None)))
    ensures sorted == [VersionedFile(0, 110, 0, e1.name), VersionedFile(0, 120, 3, e2.name)]
  {
    OrderSelection(e1, e2);
    SortedPair(VersionedFile(0, 110, 0, e1.name), VersionedFile(0, 120, 3, e2.name), sorted);
  }

  /** ... and the header then says "from v0.110.0 to v0.120.3". */
  lemma OrderExampleHeader(e1: Entry, e2: Entry, sorted: seq<VersionedFile>)
    requires e1 == Entry("v0.110.0.md", false) && e2 == Entry("v0.120.3.md", false)
    requires Ascending(sorted)
    requires multiset(sorted) == multiset(Selected([e1, e2], Bounds(None, None)))
    ensures |sorted| == 2
    ensures Header(sorted) == HeaderText("v0.110.0", "v0.120.3")
  {
    OrderExample(e1, e2, sorted);
    Name110();
    Name120();
    assert sorted[0].String() == VersionedFile(0, 110, 0, "").String();
    assert sorted[1].String() == VersionedFile(0, 120, 3, "").String();
  }
}
