/** Page mappings as values: what a sequence of map requests leaves behind and what undoes it. */
module PageMaps {
  import opened Prelude
  import opened Layout

  datatype MappingFlags = MappingFlags(writable: bool, executable: bool)

  const READ_WRITE := MappingFlags(true, false)

  datatype PageEntry = PageEntry(frame: nat, flags: MappingFlags)

  datatype MappedPage = MappedPage(virtual: nat, physical: nat)

  function Virtuals(pages: seq<MappedPage>): (v: seq<nat>)
    ensures |v| == |pages|
  {
    seq(|pages|, i requires 0 <= i < |pages| => pages[i].virtual)
  }

  function Frames(pages: seq<MappedPage>): (f: seq<nat>)
    ensures |f| == |pages|
  {
    seq(|pages|, i requires 0 <= i < |pages| => pages[i].physical)
  }

  /** The mapping after the pages have been installed one after the other. */
  function Install(before: map<nat, PageEntry>, pages: seq<MappedPage>, flags: seq<MappingFlags>): map<nat, PageEntry>
    requires |pages| == |flags|
  {
    if pages == [] then before else
      var n := |pages| - 1;
      Install(before, pages[..n], flags[..n])[pages[n].virtual := PageEntry(pages[n].physical, flags[n])]
  }

  /** No page is installed twice or over an existing one. */
  ghost predicate Fresh(before: map<nat, PageEntry>, pages: seq<MappedPage>) {
    && Distinct(Virtuals(pages))
    && forall i | 0 <= i < |pages| :: pages[i].virtual !in before
  }

  lemma FreshShorter(before: map<nat, PageEntry>, pages: seq<MappedPage>, n: nat)
    requires Fresh(before, pages) && n <= |pages|
    ensures Fresh(before, pages[..n])
  {
    forall i, j | 0 <= i < j < n ensures Virtuals(pages[..n])[i] != Virtuals(pages[..n])[j] {
      assert Virtuals(pages)[i] != Virtuals(pages)[j];
    }
  }

  /** Exactly the old pages and the new ones are mapped. */
  lemma {:induction false} InstalledKeys(before: map<nat, PageEntry>, pages: seq<MappedPage>, flags: seq<MappingFlags>, v: nat)
    requires |pages| == |flags|
    ensures v in Install(before, pages, flags) <==> v in before || v in Virtuals(pages)
    ensures v !in Virtuals(pages) && v in before ==> Install(before, pages, flags)[v] == before[v]
  {
    if pages != [] {
      var n := |pages| - 1;
      InstalledKeys(before, pages[..n], flags[..n], v);
      assert Virtuals(pages) == Virtuals(pages[..n]) + [pages[n].virtual];
    }
  }

  /** Each new page has its own frame and permissions. */
  lemma {:induction false} InstalledPage(before: map<nat, PageEntry>, pages: seq<MappedPage>, flags: seq<MappingFlags>, i: nat)
    requires |pages| == |flags| && i < |pages| && Fresh(before, pages)
    ensures pages[i].virtual in Install(before, pages, flags)
    ensures Install(before, pages, flags)[pages[i].virtual] == PageEntry(pages[i].physical, flags[i])
  {
    var n := |pages| - 1;
    if i < n {
      assert Virtuals(pages)[i] != Virtuals(pages)[n];
      FreshShorter(before, pages, n);
      InstalledPage(before, pages[..n], flags[..n], i);
    }
  }

  /** Removing the last page installed undoes installing it. */
  lemma UninstallLast(before: map<nat, PageEntry>, pages: seq<MappedPage>, flags: seq<MappingFlags>)
    requires |pages| == |flags| && pages != [] && Fresh(before, pages)
    ensures var n := |pages| - 1;
            && pages[n].virtual in Install(before, pages, flags)
            && Fresh(before, pages[..n])
            && Install(before, pages, flags) - {pages[n].virtual} == Install(before, pages[..n], flags[..n])
  {
    var n := |pages| - 1;
    FreshShorter(before, pages, n);
    InstalledKeys(before, pages[..n], flags[..n], pages[n].virtual);
    forall i | 0 <= i < n ensures Virtuals(pages[..n])[i] != pages[n].virtual {
      assert Virtuals(pages)[i] != Virtuals(pages)[n];
    }
  }

  lemma InstallOne(before: map<nat, PageEntry>, pages: seq<MappedPage>, flags: seq<MappingFlags>, p: MappedPage, f: MappingFlags)
    requires |pages| == |flags| && Fresh(before, pages) && p.virtual !in Install(before, pages, flags)
    ensures Fresh(before, pages + [p])
    ensures Install(before, pages + [p], flags + [f]) == Install(before, pages, flags)[p.virtual := PageEntry(p.physical, f)]
    ensures Virtuals(pages + [p]) == Virtuals(pages) + [p.virtual]
  {
    InstalledKeys(before, pages, flags, p.virtual);
    assert (pages + [p])[..|pages|] == pages && (flags + [f])[..|flags|] == flags;
    var v := Virtuals(pages + [p]);
    assert v == Virtuals(pages) + [p.virtual];
    forall i, j | 0 <= i < j < |v| ensures v[i] != v[j] {
      assert i < |pages| && v[i] == Virtuals(pages)[i] && v[i] in Virtuals(pages);
    }
  }

  lemma DistinctSuffix(s: seq<nat>, k: nat)
    requires Distinct(s) && k <= |s|
    ensures Distinct(s[k..]) && forall f | f in s[k..] :: f in s
  {
    forall i, j | 0 <= i < j < |s| - k ensures s[k..][i] != s[k..][j] {
      assert s[k + i] != s[k + j];
    }
  }

  lemma DropTwice(s: seq<nat>, c: nat, d: nat)
    requires c + d <= |s|
    ensures s[c..][d..] == s[c + d..]
  {
  }

  /** The pages of an aligned range, in address order. */
  function SpanPages(range: VirtRange): (pages: seq<nat>)
    requires range.start <= range.end
    ensures |pages| == (range.end - range.start) / PAGE
  {
    seq((range.end - range.start) / PAGE, i requires 0 <= i => range.start + i * PAGE)
  }

  predicate Ordered(segments: seq<SegmentMapping>) {
    forall m | m in segments :: m.range.start <= m.range.end
  }

  /** The pages of the first `n` segments, segment by segment. */
  function FirstPages(segments: seq<SegmentMapping>, n: nat): seq<nat>
    requires Ordered(segments) && n <= |segments|
  {
    if n == 0 then [] else FirstPages(segments, n - 1) + SpanPages(segments[n - 1].range)
  }

  function PageList(segments: seq<SegmentMapping>): seq<nat>
    requires Ordered(segments)
  {
    FirstPages(segments, |segments|)
  }

  function FlagsOf(flags: nat): MappingFlags {
    MappingFlags(flags / 2 % 2 == 1, flags % 2 == 1)
  }

  /** The permission a segment asks for: it is writable if bit 1 of its flags is set, executable if bit 0 is. */
  predicate Grants(f: MappingFlags, flags: nat) {
    (f.writable <==> flags / 2 % 2 == 1) && (f.executable <==> flags % 2 == 1)
  }

  function Repeat(f: MappingFlags, n: nat): (s: seq<MappingFlags>)
    ensures |s| == n
  {
    seq(n, _ => f)
  }

  /** The permission of each of these pages, in the same order. */
  function FirstFlags(segments: seq<SegmentMapping>, n: nat): (f: seq<MappingFlags>)
    requires Ordered(segments) && n <= |segments|
    ensures |f| == |FirstPages(segments, n)|
  {
    if n == 0 then [] else
      FirstFlags(segments, n - 1) + Repeat(FlagsOf(segments[n - 1].flags), |SpanPages(segments[n - 1].range)|)
  }

  function FlagList(segments: seq<SegmentMapping>): (f: seq<MappingFlags>)
    requires Ordered(segments)
    ensures |f| == |PageList(segments)|
  {
    FirstFlags(segments, |segments|)
  }

  /** The pages of the first `k` segments come first among those of the first `n`. */
  lemma {:induction false} PagesGrow(segments: seq<SegmentMapping>, k: nat, n: nat)
    requires Ordered(segments) && k <= n <= |segments|
    ensures FirstPages(segments, k) <= FirstPages(segments, n) && FirstFlags(segments, k) <= FirstFlags(segments, n)
    decreases n
  {
    if k < n {
      PagesGrow(segments, k, n - 1);
    }
  }

  /** Where in the plan's list page `j` of segment `k` stands. */
  lemma PagePlace(segments: seq<SegmentMapping>, k: nat, j: nat)
    requires Ordered(segments) && k < |segments| && j < |SpanPages(segments[k].range)|
    ensures |FirstPages(segments, k)| + j < |PageList(segments)|
    ensures PageList(segments)[|FirstPages(segments, k)| + j] == segments[k].range.start + j * PAGE
    ensures Grants(FlagList(segments)[|FirstPages(segments, k)| + j], segments[k].flags)
  {
    PagesGrow(segments, k + 1, |segments|);
    assert FirstPages(segments, k + 1)[|FirstPages(segments, k)| + j] == SpanPages(segments[k].range)[j];
    assert FirstFlags(segments, k + 1)[|FirstPages(segments, k)| + j] == FlagsOf(segments[k].flags);
  }

  /** The page of an aligned range that holds an address. */
  lemma SpanPage(range: VirtRange, address: nat) returns (j: nat)
    requires range.start % PAGE == 0 && range.end % PAGE == 0 && range.Contains(address)
    ensures j < |SpanPages(range)| && PageBase(address) == range.start + j * PAGE
  {
    j := (PageBase(address) - range.start) / PAGE;
  }
}
