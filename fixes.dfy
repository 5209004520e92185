/** The fix-note selector of `main`: it filters a directory listing of
    markdown notes named after versions against an inclusive range, sorts the
    survivors by version, and builds the header and the concatenated output. */
module Fixes {
  import opened Wrappers
  import opened Strings
  import opened Semver

  /** One entry of the `fixes` directory listing. */
  datatype Entry = Entry(name: string, isDir: bool)

  /** `versionedFile`: a selected note, its version and its file name. */
  datatype VersionedFile = VersionedFile(major: nat, minor: nat, patch: nat, name: string) {
    function Triple(): Version {
      Version(major, minor, patch)
    }

    /** `String`: the version as `v%d.%d.%d`: a "v" and then the canonical
        digits of the three components in the shape `parseVersion` accepts. */
    function String(): (r: string)
      ensures |r| > 0 && r[0] == 'v'
      ensures VersionText(r[1..], DecimalString(major), DecimalString(minor), DecimalString(patch), "")
    {
      var t := DecimalString(major) + "." + DecimalString(minor) + "." + DecimalString(patch);
      assert t == t + "";
      assert ("v" + t)[1..] == t;
      "v" + t
    }
  }

  /** The optional inclusive bounds (`hasLow`/`lowVersion`, `hasHigh`/`highVersion`). */
  datatype Bounds = Bounds(low: Option<Version>, high: Option<Version>)

  /** The conditions under which `main` stops with `log.Fatal`. */
  datatype Error =
    | InvalidLow(value: string)
    | InvalidHigh(value: string)
    | NoFixFiles
    | ReadFailed(name: string)

  /** `String` followed by `parseVersion` gives back the file's version,
      also when text that does not continue the last number follows it. */
  lemma StringRoundTrip(f: VersionedFile, rest: string)
    requires NumberEnd(rest)
    ensures ParseVersion(f.String() + rest) == Parsed(f.Triple(), None)
  {
    var r, x, y, z := f.String(), DecimalString(f.major), DecimalString(f.minor), DecimalString(f.patch);
    assert (r + rest)[..1] == "v";
    assert TrimPrefix(r + rest, "v") == r[1..] + rest;
    RestAppended(r[1..], x, y, z, rest);
    ParseVersionAccepts(r + rest, x, y, z, rest);
  }

  lemma RestAppended(t: string, x: string, y: string, z: string, rest: string)
    requires VersionText(t, x, y, z, "")
    requires NumberEnd(rest)
    ensures VersionText(t + rest, x, y, z, rest)
  {
    assert t == x + "." + y + "." + z;
  }

  /** Two files render alike exactly when their versions agree. */
  lemma StringInjective(f: VersionedFile, g: VersionedFile)
    ensures f.String() == g.String() <==> f.Triple() == g.Triple()
  {
    StringRoundTrip(f, "");
    StringRoundTrip(g, "");
    assert f.String() + "" == f.String() && g.String() + "" == g.String();
  }

  /** The `--low` and `--high` flags: an empty flag leaves that side
      unbounded; a flag that does not parse is fatal, `--low` checked first. */
  function ParseBounds(low: string, high: string): (r: Result<Bounds, Error>)
    ensures r == Failure(InvalidLow(low)) <==> low != "" && ParseVersion(low).err.Some?
    ensures r == Failure(InvalidHigh(high))
        <==> (low == "" || ParseVersion(low).err.None?) && high != "" && ParseVersion(high).err.Some?
    ensures r.Failure? ==> r == Failure(InvalidLow(low)) || r == Failure(InvalidHigh(high))
    ensures r.Success? ==> (r.value.low.None? <==> low == "") && (r.value.high.None? <==> high == "")
    ensures r.Success? && r.value.low.Some? ==> ParseVersion(low) == Parsed(r.value.low.value, None)
    ensures r.Success? && r.value.high.Some? ==> ParseVersion(high) == Parsed(r.value.high.value, None)
  {
    if low != "" && ParseVersion(low).err.Some? then Failure(InvalidLow(low))
    else if high != "" && ParseVersion(high).err.Some? then Failure(InvalidHigh(high))
    else
      Success(Bounds(if low == "" then None else Some(ParseVersion(low).version),
                     if high == "" then None else Some(ParseVersion(high).version)))
  }

  /** The file name without its ".md" extension. */
  function Stem(name: string): string {
    TrimSuffix(name, ".md")
  }

  /** The file an admitted entry becomes. */
  function FileOf(e: Entry): VersionedFile {
    var v := ParseVersion(Stem(e.name)).version;
    VersionedFile(v.major, v.minor, v.patch, e.name)
  }

  /** The filter rule stated directly: a regular file named "<version>.md"
      whose version is not below the low bound and not above the high bound. */
  predicate Admitted(e: Entry, b: Bounds) {
    var v := ParseVersion(Stem(e.name));
    && !e.isDir
    && HasSuffix(e.name, ".md")
    && v.err.None?
    && (b.low.Some? ==> !Less(v.version, b.low.value))
    && (b.high.Some? ==> !Less(b.high.value, v.version))
  }

  /** One pass of the selection loop: None for each `continue`, the appended
      file otherwise. It keeps exactly the admitted entries. */
  function Classify(e: Entry, b: Bounds): (r: Option<VersionedFile>)
    ensures r.Some? <==> Admitted(e, b)
    ensures r.Some? ==> r.value == FileOf(e)
  {
    ExtIsMd(e.name);
    if e.isDir || Ext(e.name) != ".md" then None
    else
      var name := TrimSuffix(e.name, ".md");
      var parsed := ParseVersion(name);
      if parsed.err.Some? then None
      else
        var v := parsed.version;
        if b.low.Some? && CompareSemver(v.major, v.minor, v.patch,
                                        b.low.value.major, b.low.value.minor, b.low.value.patch) < 0 then None
        else if b.high.Some? && CompareSemver(v.major, v.minor, v.patch,
                                              b.high.value.major, b.high.value.minor, b.high.value.patch) > 0 then None
        else Some(VersionedFile(v.major, v.minor, v.patch, e.name))
  }

  /** What one pass adds to `files`. */
  function Appended<B>(r: Option<B>): seq<B> {
    match r
    case None => []
    case Some(f) => [f]
  }

  /** Visiting `xs` in order and appending whatever `pick` yields for each. */
  function FilterMap<A, B>(xs: seq<A>, pick: A -> Option<B>): seq<B> {
    if xs == [] then [] else FilterMap(xs[..|xs| - 1], pick) + Appended(pick(xs[|xs| - 1]))
  }

  /** The files the loop has collected after visiting `entries`, in visiting order. */
  function Selected(entries: seq<Entry>, b: Bounds): seq<VersionedFile> {
    FilterMap(entries, e => Classify(e, b))
  }

  /** The `for _, e := range entries` loop with its `continue`s and `append`. */
  method CollectFiles(entries: seq<Entry>, b: Bounds) returns (files: seq<VersionedFile>)
    ensures files == Selected(entries, b)
  {
    files := [];
    for i := 0 to |entries|
      invariant files == Selected(entries[..i], b)
    {
      assert entries[..i + 1][..i] == entries[..i];
      var e := entries[i];
      if e.isDir || Ext(e.name) != ".md" {
        continue;
      }
      var name := TrimSuffix(e.name, ".md");
      var parsed := ParseVersion(name);
      if parsed.err.Some? {
        continue;
      }
      var v := parsed.version;
      if b.low.Some? && CompareSemver(v.major, v.minor, v.patch,
                                      b.low.value.major, b.low.value.minor, b.low.value.patch) < 0 {
        continue;
      }
      if b.high.Some? && CompareSemver(v.major, v.minor, v.patch,
                                       b.high.value.major, b.high.value.minor, b.high.value.patch) > 0 {
        continue;
      }
      files := files + [VersionedFile(v.major, v.minor, v.patch, e.name)];
    }
    assert entries[..|entries|] == entries;
  }

  lemma {:induction false} FilterMapAppend<A, B>(xs: seq<A>, ys: seq<A>, pick: A -> Option<B>)
    ensures FilterMap(xs + ys, pick) == FilterMap(xs, pick) + FilterMap(ys, pick)
    decreases |ys|
  {
    if ys == [] {
      assert xs + ys == xs;
    } else {
      var n := |ys| - 1;
      assert (xs + ys)[..|xs + ys| - 1] == xs + ys[..n];
      assert (xs + ys)[|xs + ys| - 1] == ys[n];
      FilterMapAppend(xs, ys[..n], pick);
    }
  }

  lemma {:induction false} FilterMapMembers<A, B>(xs: seq<A>, pick: A -> Option<B>, y: B)
    ensures y in FilterMap(xs, pick) <==> exists i :: 0 <= i < |xs| && pick(xs[i]) == Some(y)
  {
    if xs != [] {
      var n := |xs| - 1;
      var init := xs[..n];
      FilterMapMembers(init, pick, y);
      if y in FilterMap(xs, pick) {
        if y in FilterMap(init, pick) {
          var i :| 0 <= i < |init| && pick(init[i]) == Some(y);
          assert xs[i] == init[i];
        } else {
          assert pick(xs[n]) == Some(y);
        }
      }
      if exists i :: 0 <= i < |xs| && pick(xs[i]) == Some(y) {
        var i :| 0 <= i < |xs| && pick(xs[i]) == Some(y);
        if i < n {
          assert init[i] == xs[i];
        }
      }
    }
  }

  lemma {:induction false} FilterMapMonotonic<A, B>(xs: seq<A>, small: A -> Option<B>, large: A -> Option<B>)
    requires forall x :: small(x).Some? ==> large(x) == small(x)
    ensures multiset(FilterMap(xs, small)) <= multiset(FilterMap(xs, large))
  {
    if xs != [] {
      FilterMapMonotonic(xs[..|xs| - 1], small, large);
    }
  }

  /** Each entry is judged on its own: the selection of a listing is the
      selections of its parts, one after the other. */
  lemma SelectedAppend(xs: seq<Entry>, ys: seq<Entry>, b: Bounds)
    ensures Selected(xs + ys, b) == Selected(xs, b) + Selected(ys, b)
  {
    FilterMapAppend(xs, ys, e => Classify(e, b));
  }

  /** A single entry is selected exactly when it is admitted. */
  lemma SelectedSingle(e: Entry, b: Bounds)
    ensures Selected([e], b) == if Admitted(e, b) then [FileOf(e)] else []
  {
    assert [e][..0] == [];
    assert FilterMap([e], x => Classify(x, b)) == Appended(Classify(e, b));
  }

  /** Membership: a file is selected exactly when some entry of the listing
      is admitted and yields it. */
  lemma SelectedMembers(entries: seq<Entry>, b: Bounds, f: VersionedFile)
    ensures f in Selected(entries, b)
        <==> exists i :: 0 <= i < |entries| && Admitted(entries[i], b) && f == FileOf(entries[i])
  {
    FilterMapMembers(entries, e => Classify(e, b), f);
  }

  /** Without bounds every regular ".md" entry whose stem parses is selected. */
  lemma UnboundedAdmitsAllVersioned(e: Entry)
    ensures Admitted(e, Bounds(None, None))
        <==> !e.isDir && HasSuffix(e.name, ".md") && ParseVersion(Stem(e.name)).err.None?
  {
  }

  /** `wide` admits every version that `narrow` admits: its low bound is
      absent or not above `narrow`'s, and its high bound absent or not below. */
  predicate Wider(wide: Bounds, narrow: Bounds) {
    && (wide.low.Some? ==> narrow.low.Some? && !Less(narrow.low.value, wide.low.value))
    && (wide.high.Some? ==> narrow.high.Some? && !Less(wide.high.value, narrow.high.value))
  }

  /** Widening the range (lowering low, raising high, dropping a bound) never
      removes a selected file: the narrow selection is a sub-multiset of the wide one. */
  lemma SelectedMonotonic(entries: seq<Entry>, wide: Bounds, narrow: Bounds)
    requires Wider(wide, narrow)
    ensures multiset(Selected(entries, narrow)) <= multiset(Selected(entries, wide))
  {
    forall e | Classify(e, narrow).Some? ensures Classify(e, wide) == Classify(e, narrow) {
      assert Admitted(e, wide);
    }
    FilterMapMonotonic(entries, e => Classify(e, narrow), e => Classify(e, wide));
  }

  /** `f` does not come after `g`: compareSemver(f, g) <= 0. */
  predicate NotAfter(f: VersionedFile, g: VersionedFile) {
    !Less(g.Triple(), f.Triple())
  }

  /** What `sort.Slice` guarantees: each adjacent pair compares <= 0. */
  predicate Sorted(s: seq<VersionedFile>) {
    forall i :: 0 < i < |s| ==> Compare(s[i - 1].Triple(), s[i].Triple()) <= 0
  }

  /** Every earlier file, not only the neighbour, is no later than a later one. */
  predicate Ascending(s: seq<VersionedFile>) {
    forall i, j :: 0 <= i < j < |s| ==> NotAfter(s[i], s[j])
  }

  /** The adjacent-pair and the all-pairs readings of sortedness agree. */
  lemma {:induction false} SortedIffAscending(s: seq<VersionedFile>)
    ensures Sorted(s) <==> Ascending(s)
  {
    if Sorted(s) && |s| > 1 {
      var init := s[..|s| - 1];
      assert Sorted(init);
      SortedIffAscending(init);
      forall i, j | 0 <= i < j < |s| ensures NotAfter(s[i], s[j]) {
        if j < |s| - 1 {
          assert NotAfter(init[i], init[j]);
        } else if i < j - 1 {
          assert NotAfter(init[i], init[j - 1]);
        }
      }
    }
  }

  /** `sort.Slice(files, less)` with less(i, j) = compareSemver(files[i],
      files[j]) < 0. The order among equal versions is not specified (the Go
      sort is not stable); any sort with these postconditions models it. This
      one inserts each file into the sorted prefix. */
  method SortFiles(a: array<VersionedFile>)
    modifies a
    ensures Ascending(a[..])
    ensures multiset(a[..]) == multiset(old(a[..]))
  {
    var i := 0;
    while i < a.Length
      invariant 0 <= i <= a.Length
      invariant Ascending(a[..i])
      invariant multiset(a[..]) == multiset(old(a[..]))
    {
      InsertFile(a, i);
      i := i + 1;
    }
    assert a[..a.Length] == a[..];
  }

  /** During an insertion into `s[..i + 1]`: all files but the one moving
      (now at `j`) are in order ... */
  predicate SortedExcept(s: seq<VersionedFile>, i: nat, j: nat)
    requires i < |s|
  {
    forall p, q :: 0 <= p < q <= i && p != j && q != j ==> NotAfter(s[p], s[q])
  }

  /** ... and the moving file is no later than any file it has passed. */
  predicate BelowPassed(s: seq<VersionedFile>, i: nat, j: nat)
    requires j <= i < |s|
  {
    forall q :: j < q <= i ==> NotAfter(s[j], s[q])
  }

  /** One swap of the moving file with its earlier neighbour. */
  function SwapDown(s: seq<VersionedFile>, j: nat): (r: seq<VersionedFile>)
    requires 0 < j < |s|
    ensures |r| == |s| && multiset(r) == multiset(s)
  {
    s[j - 1 := s[j]][j := s[j - 1]]
  }

  /** Swapping past a later-versioned neighbour keeps the insertion invariant. */
  lemma SwapDownKeepsOrder(s: seq<VersionedFile>, i: nat, j: nat)
    requires 0 < j <= i < |s|
    requires SortedExcept(s, i, j) && BelowPassed(s, i, j)
    requires Less(s[j].Triple(), s[j - 1].Triple())
    ensures SortedExcept(SwapDown(s, j), i, j - 1) && BelowPassed(SwapDown(s, j), i, j - 1)
  {
  }

  /** The insertion is over once the moving file reaches the front or a
      neighbour that is not later than it. */
  lemma InsertionDone(s: seq<VersionedFile>, i: nat, j: nat)
    requires j <= i < |s|
    requires SortedExcept(s, i, j) && BelowPassed(s, i, j)
    requires j > 0 ==> NotAfter(s[j - 1], s[j])
    ensures Ascending(s[..i + 1])
  {
  }

  /** A swap inside the prefix `s[..i + 1]` stays inside it. */
  lemma SwapDownSplit(s: seq<VersionedFile>, i: nat, j: nat)
    requires 0 < j <= i < |s|
    ensures SwapDown(s, j)[..i + 1] == SwapDown(s[..i + 1], j)
    ensures SwapDown(s, j)[i + 1..] == s[i + 1..]
  {
  }

  /** Exchanges `a[j]` with its earlier neighbour. */
  method Swap(a: array<VersionedFile>, j: nat)
    requires 0 < j < a.Length
    modifies a
    ensures a[..] == SwapDown(old(a[..]), j)
  {
    a[j - 1], a[j] := a[j], a[j - 1];
  }

  /** Swaps `a[i]` down past every later-versioned file of the sorted prefix `a[..i]`. */
  method InsertFile(a: array<VersionedFile>, i: nat)
    requires i < a.Length
    requires Ascending(a[..i])
    modifies a
    ensures Ascending(a[..i + 1])
    ensures multiset(a[..i + 1]) == multiset(old(a[..i + 1]))
    ensures a[i + 1..] == old(a[i + 1..])
    ensures multiset(a[..]) == multiset(old(a[..]))
  {
    var j := i;
    while j > 0 && CompareSemver(a[j].major, a[j].minor, a[j].patch,
                                 a[j - 1].major, a[j - 1].minor, a[j - 1].patch) < 0
      invariant 0 <= j <= i
      invariant SortedExcept(a[..], i, j) && BelowPassed(a[..], i, j)
      invariant multiset(a[..i + 1]) == multiset(old(a[..i + 1]))
      invariant a[i + 1..] == old(a[i + 1..])
    {
      SwapDownKeepsOrder(a[..], i, j);
      SwapDownSplit(a[..], i, j);
      Swap(a, j);
      j := j - 1;
    }
    InsertionDone(a[..], i, j);
    PermutedPrefix(old(a[..]), a[..], i + 1);
  }

  /** Permuting a prefix and keeping the rest permutes the whole. */
  lemma PermutedPrefix(s: seq<VersionedFile>, t: seq<VersionedFile>, k: nat)
    requires k <= |s| == |t|
    requires multiset(t[..k]) == multiset(s[..k]) && t[k..] == s[k..]
    ensures multiset(t) == multiset(s)
  {
    assert s == s[..k] + s[k..];
    assert t == t[..k] + t[k..];
  }

  /** The `fmt.Sprintf` template of the header, filled with the first and
      the last version: it opens by naming both and closes by naming the
      last as the version to upgrade to. */
  function HeaderText(first: string, last: string): (r: string)
    ensures HasPrefix(r, "## Fixes from Hugo " + first + " to Hugo " + last)
    ensures HasSuffix(r, "upgrading to Hugo " + last + " in e.g. netlify.toml.\n\t\n")
  {
    HeaderTextGroups(first, last);
    "## Fixes from Hugo " + first + " to Hugo " + last
      + "\n\nNote that these upgrades typically also requires upgrading to Hugo " + last
      + " in e.g. netlify.toml.\n\t\n"
  }

  /** The template regrouped around its opening and its closing. */
  lemma HeaderTextGroups(first: string, last: string)
    ensures "## Fixes from Hugo " + first + " to Hugo " + last
      + "\n\nNote that these upgrades typically also requires upgrading to Hugo " + last
      + " in e.g. netlify.toml.\n\t\n"
      == ("## Fixes from Hugo " + first + " to Hugo " + last)
      + "\n\nNote that these upgrades typically also requires "
      + ("upgrading to Hugo " + last + " in e.g. netlify.toml.\n\t\n")
  {
  }
  /** The header written before the notes. Read back with `parseVersion`
      (which ignores what follows it), the text after "## Fixes from Hugo "
      is the first sorted file's version; the header closes by naming the
      last sorted file as the version to upgrade to. */
  function Header(files: seq<VersionedFile>): (r: string)
    requires |files| > 0
    ensures HasPrefix(r, "## Fixes from Hugo " + files[0].String() + " to Hugo " + files[|files| - 1].String())
    ensures ParseVersion(r[|"## Fixes from Hugo "|..]) == Parsed(files[0].Triple(), None)
    ensures HasSuffix(r, "upgrading to Hugo " + files[|files| - 1].String() + " in e.g. netlify.toml.\n\t\n")
  {
    var f, last := files[0], files[|files| - 1].String();
    HeaderTextSplit(f.String(), last);
    assert HeaderTail(last)[0] == ' ';
    StringRoundTrip(f, HeaderTail(last));
    HeaderText(f.String(), last)
  }

  /** Everything of the header after the first version. */
  function HeaderTail(last: string): string {
    " to Hugo " + last
      + "\n\nNote that these upgrades typically also requires upgrading to Hugo " + last
      + " in e.g. netlify.toml.\n\t\n"
  }

  lemma HeaderTextSplit(first: string, last: string)
    ensures HeaderText(first, last)[|"## Fixes from Hugo "|..] == first + HeaderTail(last)
  {
    HeaderTailGroups(first, HeaderTail(last), last);
    assert HeaderText(first, last) == "## Fixes from Hugo " + (first + HeaderTail(last));
  }

  lemma HeaderTailGroups(first: string, tail: string, last: string)
    requires tail == " to Hugo " + last
      + "\n\nNote that these upgrades typically also requires upgrading to Hugo " + last
      + " in e.g. netlify.toml.\n\t\n"
    ensures "## Fixes from Hugo " + (first + tail)
      == "## Fixes from Hugo " + first + " to Hugo " + last
      + "\n\nNote that these upgrades typically also requires upgrading to Hugo " + last
      + " in e.g. netlify.toml.\n\t\n"
  {
  }

  /** In a sorted selection the first file is the lowest version and the last
      the highest, so the header names the bounds actually found. */
  lemma AscendingExtremes(files: seq<VersionedFile>)
    requires |files| > 0 && Ascending(files)
    ensures forall f :: f in files ==> NotAfter(files[0], f) && NotAfter(f, files[|files| - 1])
  {
  }

  /** Because only versions are compared, any two sortings of the same
      selection (the Go sort may order equal versions either way) give the
      same header. */
  lemma HeaderDeterministic(s: seq<VersionedFile>, t: seq<VersionedFile>)
    requires |s| > 0 && Ascending(s) && Ascending(t)
    requires multiset(s) == multiset(t)
    ensures |t| > 0
    ensures Header(s) == Header(t)
  {
    assert s[0] in multiset(t);
    assert |t| > 0;
    assert s[|s| - 1] in multiset(t);
    assert t[0] in multiset(s) && t[|t| - 1] in multiset(s);
    assert s[0].Triple() == t[0].Triple();
    assert s[|s| - 1].Triple() == t[|t| - 1].Triple();
  }

  /** The notes written after the header, in order, each followed by a
      newline; reading a note that is not in `contents` is fatal. */
  function Body(files: seq<VersionedFile>, contents: map<string, string>): (r: Result<string, Error>)
    ensures r.Success? ==> forall i :: 0 <= i < |files| ==> files[i].name in contents
    ensures r.Failure? ==> r.error.ReadFailed? && r.error.name !in contents
  {
    if files == [] then Success("")
    else
      match Body(files[..|files| - 1], contents)
      case Failure(e) => Failure(e)
      case Success(out) =>
        var f := files[|files| - 1];
        if f.name in contents then Success(out + contents[f.name] + "\n")
        else Failure(ReadFailed(f.name))
  }

  /** Writing succeeds exactly when every selected note can be read. */
  lemma {:induction false} BodySucceedsIff(files: seq<VersionedFile>, contents: map<string, string>)
    ensures Body(files, contents).Success? <==> forall i :: 0 <= i < |files| ==> files[i].name in contents
  {
    if files != [] {
      var init := files[..|files| - 1];
      BodySucceedsIff(init, contents);
      assert forall i :: 0 <= i < |init| ==> init[i] == files[i];
    }
  }

  /** A failed write names the first note, in output order, that cannot be read. */
  lemma {:induction false} BodyFailure(files: seq<VersionedFile>, contents: map<string, string>)
    requires Body(files, contents).Failure?
    ensures exists k :: && 0 <= k < |files| && files[k].name !in contents
                        && (forall i :: 0 <= i < k ==> files[i].name in contents)
                        && Body(files, contents).error == ReadFailed(files[k].name)
  {
    var n := |files| - 1;
    var init := files[..n];
    assert forall i :: 0 <= i < |init| ==> init[i] == files[i];
    if Body(init, contents).Failure? {
      BodyFailure(init, contents);
      var k :| && 0 <= k < |init| && init[k].name !in contents
               && (forall i :: 0 <= i < k ==> init[i].name in contents)
               && Body(init, contents).error == ReadFailed(init[k].name);
      assert files[k] == init[k];
    } else {
      BodySucceedsIff(init, contents);
      assert files[n].name !in contents;
    }
  }

  /** Once a prefix fails, the rest of the notes are never written. */
  lemma {:induction false} BodyPrefixFailure(files: seq<VersionedFile>, contents: map<string, string>, k: nat)
    requires k <= |files|
    requires Body(files[..k], contents).Failure?
    ensures Body(files, contents) == Body(files[..k], contents)
    decreases |files| - k
  {
    if k < |files| {
      var n := |files| - 1;
      assert files[..n][..k] == files[..k];
      BodyPrefixFailure(files[..n], contents, k);
    } else {
      assert files[..k] == files;
    }
  }

  /** The output loop: read each note in sorted order, write it and a newline. */
  method WriteFiles(files: seq<VersionedFile>, contents: map<string, string>) returns (r: Result<string, Error>)
    ensures r == Body(files, contents)
  {
    var out := "";
    for i := 0 to |files|
      invariant Body(files[..i], contents) == Success(out)
    {
      assert files[..i + 1][..i] == files[..i];
      var f := files[i];
      if f.name !in contents {
        BodyPrefixFailure(files, contents, i + 1);
        return Failure(ReadFailed(f.name));
      }
      out := out + contents[f.name] + "\n";
    }
    assert files[..|files|] == files;
    return Success(out);
  }

  /** What a successful run writes to standard output, with the files in the
      order it wrote them. */
  datatype Output = Output(files: seq<VersionedFile>, text: string)

  /** Collecting and then sorting in place: a sorted permutation of the selection. */
  method SortedSelection(entries: seq<Entry>, b: Bounds) returns (sorted: seq<VersionedFile>)
    ensures Ascending(sorted)
    ensures multiset(sorted) == multiset(Selected(entries, b))
  {
    var files := CollectFiles(entries, b);
    var a := new VersionedFile[|files|](i requires 0 <= i < |files| => files[i]);
    assert a[..] == files;
    SortFiles(a);
    sorted := a[..];
  }

  /** A permutation of the selection is readable exactly when the selection is. */
  lemma ReadablePermutation(sorted: seq<VersionedFile>, sel: seq<VersionedFile>, contents: map<string, string>)
    requires multiset(sorted) == multiset(sel)
    ensures (forall i :: 0 <= i < |sorted| ==> sorted[i].name in contents)
        <==> (forall f :: f in sel ==> f.name in contents)
  {
    forall f ensures f in sel <==> f in sorted {
      assert f in sel <==> f in multiset(sel);
      assert f in sorted <==> f in multiset(sorted);
    }
  }

  /** The body of `main` after flag parsing: check the bounds, collect the
      matching notes, stop if there are none, sort them, then write the header
      followed by every note. */
  method Run(low: string, high: string, entries: seq<Entry>, contents: map<string, string>)
    returns (r: Result<Output, Error>)
    ensures ParseBounds(low, high).Failure? ==> r == Failure(ParseBounds(low, high).error)
    ensures ParseBounds(low, high).Success? && Selected(entries, ParseBounds(low, high).value) == []
            ==> r == Failure(NoFixFiles)
    ensures ParseBounds(low, high).Success? && Selected(entries, ParseBounds(low, high).value) != []
            ==> (r.Success? <==> forall f :: f in Selected(entries, ParseBounds(low, high).value) ==> f.name in contents)
    ensures ParseBounds(low, high).Success? && Selected(entries, ParseBounds(low, high).value) != [] && r.Failure?
            ==> r.error.ReadFailed?
    ensures r.Success? ==>
              && ParseBounds(low, high).Success?
              && |r.value.files| > 0
              && Ascending(r.value.files)
              && multiset(r.value.files) == multiset(Selected(entries, ParseBounds(low, high).value))
              && Body(r.value.files, contents).Success?
              && r.value.text == Header(r.value.files) + Body(r.value.files, contents).value
    ensures r.Failure? && r.error.ReadFailed? ==>
              && ParseBounds(low, high).Success?
              && r.error.name !in contents
              && exists f :: f in Selected(entries, ParseBounds(low, high).value) && f.name == r.error.name
  {
    var bounds := ParseBounds(low, high);
    if bounds.Failure? {
      return Failure(bounds.error);
    }
    ghost var sel := Selected(entries, bounds.value);
    var sorted := SortedSelection(entries, bounds.value);
    if |sorted| == 0 {
      assert sel == [] by { assert |multiset(sel)| == 0; }
      return Failure(NoFixFiles);
    }
    assert sel != [] by { assert |multiset(sel)| > 0; }
    var header := Header(sorted);
    var body := WriteFiles(sorted, contents);
    BodySucceedsIff(sorted, contents);
    ReadablePermutation(sorted, sel, contents);
    if body.Failure? {
      BodyFailure(sorted, contents);
      var k :| 0 <= k < |sorted| && sorted[k].name !in contents && body.error == ReadFailed(sorted[k].name);
      assert sorted[k] in multiset(sel);
      return Failure(body.error);
    }
    return Success(Output(sorted, header + body.value));
  }
}
