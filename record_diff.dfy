/**
 * The record-diff engine: index the old file by id, stream the new file in
 * order classifying each record, then sweep the ids never matched as
 * deleted. Specification functions come first, then the lemmas about them,
 * then the methods that run the pass step by step.
 */
module RecordDiff {
  import opened Wrappers
  import opened Records

  /** One report line: a record id and the tag written after it. */
  datatype Line = Line(id: int, reason: Reason)

  /** The in-memory index of the old file, keyed by record id. */
  type Index = map<int, Entry>

  /** The ids of the records of a file. */
  function Ids(s: seq<Entry>): set<int> {
    set i | 0 <= i < |s| :: s[i].id
  }

  /** No id occurs twice in the file. */
  predicate DistinctIds(s: seq<Entry>) {
    forall i, j :: 0 <= i < j < |s| ==> s[i].id != s[j].id
  }

  /**
   * The index after reading the old file line by line, each line stored
   * under its id (so a later line replaces an earlier one with the same id).
   */
  function IndexOf(s: seq<Entry>): (r: Index)
    ensures forall x :: x in r ==> r[x].id == x && r[x] in s
  {
    if s == [] then map[] else IndexOf(s[..|s| - 1])[s[|s| - 1].id := s[|s| - 1]]
  }

  /** The tag a new record yields, if any, and the index after it is read. */
  datatype Outcome = Outcome(tag: Option<Reason>, rest: Index)

  /**
   * Reading one new record: an id missing from the index is NEW and leaves
   * the index alone; a present id is removed and the pair is compared.
   */
  function Step(index: Index, e: Entry): (o: Outcome)
    ensures o.rest == index - {e.id}
    ensures o.tag == Some(New) <==> e.id !in index
    ensures o.tag != Some(Del)
    ensures e.id in index ==> o.tag == FirstDiff(index[e.id], e)
  {
    if e.id !in index then Outcome(Some(New), index)
    else Outcome(FirstDiff(index[e.id], e), index - {e.id})
  }

  /** The report lines for one tag: none for an unchanged record. */
  function Emit(id: int, tag: Option<Reason>): seq<Line> {
    if tag.Some? then [Line(id, tag.value)] else []
  }

  /** Lines reported so far and what is left of the index. */
  datatype Progress = Progress(lines: seq<Line>, rest: Index)

  /** The state after streaming the records `s` in file order. */
  function Stream(index: Index, s: seq<Entry>): (p: Progress)
    ensures forall x :: x in p.rest ==> x in index && p.rest[x] == index[x]
  {
    if s == [] then Progress([], index)
    else
      var p := Stream(index, s[..|s| - 1]);
      var e := s[|s| - 1];
      var o := Step(p.rest, e);
      Progress(p.lines + Emit(e.id, o.tag), o.rest)
  }

  /**
   * Reference classification without any state: every new record judged
   * against the ORIGINAL index.
   */
  function Judged(index: Index, s: seq<Entry>): seq<Line> {
    if s == [] then []
    else
      var e := s[|s| - 1];
      Judged(index, s[..|s| - 1]) +
        Emit(e.id, if e.id !in index then Some(New) else FirstDiff(index[e.id], e))
  }

  /** The DEL sweep over `keys`: one DEL line per key, each exactly once, in some order. */
  predicate IsDelSweep(dels: seq<Line>, keys: set<int>) {
    && (forall k :: 0 <= k < |dels| ==> dels[k].reason == Del)
    && (forall i, j :: 0 <= i < j < |dels| ==> dels[i].id != dels[j].id)
    && LineIds(dels) == keys
  }

  /** The ids mentioned by some report lines. */
  function LineIds(lines: seq<Line>): set<int> {
    set k | 0 <= k < |lines| :: lines[k].id
  }

  /** Appending a line adds exactly its id to the ids a report mentions. */
  lemma LineIdsSnoc(lines: seq<Line>, l: Line)
    ensures LineIds(lines + [l]) == LineIds(lines) + {l.id}
  {
    var t := lines + [l];
    forall x | x in LineIds(t) ensures x in LineIds(lines) + {l.id} {
      var k :| 0 <= k < |t| && t[k].id == x;
      if k < |lines| { assert t[k] == lines[k]; }
    }
    forall x | x in LineIds(lines) ensures x in LineIds(t) {
      var k :| 0 <= k < |lines| && lines[k].id == x;
      assert t[k] == lines[k];
    }
    assert t[|lines|] == l;
  }

  /**
   * What one file pair's report looks like: the streamed lines in new-file
   * order, then one DEL line for each id left in the index, each exactly
   * once, in some order.
   */
  predicate IsFileReport(oldFile: seq<Entry>, newFile: seq<Entry>, report: seq<Line>) {
    var p := Stream(IndexOf(oldFile), newFile);
    && |p.lines| <= |report|
    && report[..|p.lines|] == p.lines
    && IsDelSweep(report[|p.lines|..], p.rest.Keys)
  }

  /** Appending a record adds exactly its id to the ids of a file. */
  lemma IdsSnoc(s: seq<Entry>)
    requires s != []
    ensures Ids(s) == Ids(s[..|s| - 1]) + {s[|s| - 1].id}
  {
    var p := s[..|s| - 1];
    forall x | x in Ids(s) ensures x in Ids(p) + {s[|s| - 1].id} {
      var i :| 0 <= i < |s| && s[i].id == x;
      if i < |s| - 1 { assert p[i] == s[i]; }
    }
    forall x | x in Ids(p) ensures x in Ids(s) {
      var i :| 0 <= i < |p| && p[i].id == x;
      assert s[i] == p[i];
    }
  }

  /** The index holds exactly the ids of the old file. */
  lemma {:induction false} IndexOfKeys(s: seq<Entry>)
    ensures IndexOf(s).Keys == Ids(s)
  {
    if s != [] {
      IndexOfKeys(s[..|s| - 1]);
      IdsSnoc(s);
    }
  }

  /** Last occurrence wins: an id maps to the last line that carries it. */
  lemma {:induction false} IndexLastWins(s: seq<Entry>, j: int)
    requires 0 <= j < |s|
    requires forall k :: j < k < |s| ==> s[k].id != s[j].id
    ensures s[j].id in IndexOf(s) && IndexOf(s)[s[j].id] == s[j]
  {
    if j < |s| - 1 {
      var p := s[..|s| - 1];
      assert p[j] == s[j];
      forall k | j < k < |p| ensures p[k].id != p[j].id {
        assert p[k] == s[k];
      }
      IndexLastWins(p, j);
    }
  }

  /**
   * Streaming removes from the index exactly the ids of the new file and
   * changes nothing else in it.
   */
  lemma {:induction false} StreamRest(index: Index, s: seq<Entry>)
    ensures Stream(index, s).rest == index - Ids(s)
  {
    if s != [] {
      StreamRest(index, s[..|s| - 1]);
      IdsSnoc(s);
    }
  }

  /**
   * Streaming never reports DEL, and every line it writes is about a record
   * of the new file.
   */
  lemma {:induction false} StreamLines(index: Index, s: seq<Entry>)
    ensures forall l :: l in Stream(index, s).lines ==> l.reason != Del && l.id in Ids(s)
  {
    if s != [] {
      StreamLines(index, s[..|s| - 1]);
      IdsSnoc(s);
      var e := s[|s| - 1];
      var rest := Stream(index, s[..|s| - 1]).rest;
      if e.id in rest {
        FirstDiffIsField(rest[e.id], e);
      }
    }
  }

  /** The field chain only ever names a field, never `NEW` or `DEL`. */
  lemma FirstDiffIsField(pe: Entry, e: Entry)
    ensures FirstDiff(pe, e) != Some(Del) && FirstDiff(pe, e) != Some(New)
  {
  }

  /**
   * When the new file holds every id at most once, deleting matched ids
   * during the stream changes nothing: each record is judged as if against
   * the original index.
   */
  lemma {:induction false} StreamIsJudged(index: Index, s: seq<Entry>)
    requires DistinctIds(s)
    ensures Stream(index, s).lines == Judged(index, s)
  {
    if s != [] {
      var p := s[..|s| - 1];
      var e := s[|s| - 1];
      assert DistinctIds(p) by {
        forall i, j | 0 <= i < j < |p| ensures p[i].id != p[j].id {
          assert p[i] == s[i] && p[j] == s[j];
        }
      }
      StreamIsJudged(index, p);
      StreamRest(index, p);
      forall i | 0 <= i < |p| ensures p[i].id != e.id {
        assert p[i] == s[i];
      }
    }
  }

  /** A new record is reported NEW exactly when its id is not in the index. */
  lemma {:induction false} JudgedNew(index: Index, s: seq<Entry>, x: int)
    ensures Line(x, New) in Judged(index, s) <==> x !in index && x in Ids(s)
  {
    if s != [] {
      JudgedNew(index, s[..|s| - 1], x);
      IdsSnoc(s);
      var e := s[|s| - 1];
      if e.id in index {
        FirstDiffIsField(index[e.id], e);
      }
    }
  }

  /**
   * A changed record is reported with the reason its comparison against
   * the indexed record gives.
   */
  lemma {:induction false} JudgedChanged(index: Index, s: seq<Entry>, x: int, r: Reason)
    requires r != New
    requires Line(x, r) in Judged(index, s)
    ensures x in index
    ensures exists i :: 0 <= i < |s| && s[i].id == x && FirstDiff(index[x], s[i]) == Some(r)
  {
    var p := s[..|s| - 1];
    var e := s[|s| - 1];
    if Line(x, r) in Judged(index, p) {
      JudgedChanged(index, p, x, r);
      var i :| 0 <= i < |p| && p[i].id == x && FirstDiff(index[x], p[i]) == Some(r);
      assert s[i] == p[i];
    } else {
      assert s[|s| - 1].id == x;
    }
  }

  /**
   * Every new record whose comparison yields a tag is reported with it:
   * NEW when its id is not indexed, otherwise the first differing field.
   */
  lemma {:induction false} JudgedComplete(index: Index, s: seq<Entry>, i: int)
    requires 0 <= i < |s|
    ensures s[i].id !in index ==> Line(s[i].id, New) in Judged(index, s)
    ensures s[i].id in index && FirstDiff(index[s[i].id], s[i]).Some? ==>
              Line(s[i].id, FirstDiff(index[s[i].id], s[i]).value) in Judged(index, s)
  {
    if i < |s| - 1 {
      var p := s[..|s| - 1];
      assert p[i] == s[i];
      JudgedComplete(index, p, i);
    }
  }

  /** Streaming reports each new record at most once, so lines of distinct records have distinct ids. */
  lemma {:induction false} StreamIdsDistinct(index: Index, s: seq<Entry>)
    requires DistinctIds(s)
    ensures forall i, j :: 0 <= i < j < |Stream(index, s).lines| ==>
              Stream(index, s).lines[i].id != Stream(index, s).lines[j].id
  {
    if s != [] {
      var p := s[..|s| - 1];
      var e := s[|s| - 1];
      forall i, j | 0 <= i < j < |p| ensures p[i].id != p[j].id {
        assert p[i] == s[i] && p[j] == s[j];
      }
      StreamIdsDistinct(index, p);
      StreamLines(index, p);
      forall i | 0 <= i < |p| ensures p[i].id != e.id {
        assert p[i] == s[i];
      }
      var before := Stream(index, p).lines;
      forall l | l in before ensures l.id != e.id {
        assert l.id in Ids(p);
      }
    }
  }

  /**
   * When the new file holds every id at most once, no id is reported twice
   * in a file's report: changed and new records once each in file order,
   * deleted ids once each after them.
   */
  lemma ReportIdsDistinct(oldFile: seq<Entry>, newFile: seq<Entry>, report: seq<Line>)
    requires DistinctIds(newFile)
    requires IsFileReport(oldFile, newFile, report)
    ensures forall i, j :: 0 <= i < j < |report| ==> report[i].id != report[j].id
  {
    var index := IndexOf(oldFile);
    var p := Stream(index, newFile);
    var n := |p.lines|;
    StreamIdsDistinct(index, newFile);
    StreamLines(index, newFile);
    StreamRest(index, newFile);
    var dels := report[n..];
    forall i, j | 0 <= i < j < |report| ensures report[i].id != report[j].id {
      if j < n {
        assert report[i] == p.lines[i] && report[j] == p.lines[j];
      } else if i < n {
        assert report[i] == p.lines[i];
        assert report[i].id in Ids(newFile);
        assert report[j] == dels[j - n];
        assert report[j].id in LineIds(dels);
      } else {
        assert report[i] == dels[i - n] && report[j] == dels[j - n];
      }
    }
  }

  /**
   * With duplicate ids in the new file the stream and the reference part:
   * the second copy of a matched record is reported NEW, because its id
   * was already removed from the index.
   */
  lemma DuplicateNewIdIsNew(e: Entry)
    ensures Stream(map[e.id := e], [e, e]).lines == [Line(e.id, New)]
    ensures Judged(map[e.id := e], [e, e]) == []
  {
    var index := map[e.id := e];
    var s := [e, e];
    assert s[..1] == [e];
    assert [e][..0] == [];
    FirstDiffNoneIffSame(e, e);
    assert Stream(index, [e]) == Progress([], map[]);
    assert Judged(index, [e]) == [];
  }

  /**
   * Files with no id in common: every new record is NEW, in file order, and
   * the whole index is left for the DEL sweep.
   */
  lemma {:induction false} DisjointFiles(index: Index, s: seq<Entry>)
    requires index.Keys !! Ids(s)
    ensures Stream(index, s).rest == index
    ensures |Stream(index, s).lines| == |s|
    ensures forall i :: 0 <= i < |s| ==> Stream(index, s).lines[i] == Line(s[i].id, New)
  {
    if s != [] {
      var p := s[..|s| - 1];
      IdsSnoc(s);
      DisjointFiles(index, p);
      var lines := Stream(index, s).lines;
      forall i | 0 <= i < |s| ensures lines[i] == Line(s[i].id, New) {
        if i < |p| { assert s[i] == p[i]; }
      }
    }
  }

  /** Comparing a file with itself reports nothing and leaves nothing to delete. */
  lemma IdenticalFiles(s: seq<Entry>)
    requires DistinctIds(s)
    ensures Stream(IndexOf(s), s) == Progress([], map[])
  {
    var index := IndexOf(s);
    StreamIsJudged(index, s);
    StreamRest(index, s);
    IndexOfKeys(s);
    JudgedSelf(index, s, s);
  }

  /** Every prefix of a duplicate-free file is judged unchanged against the file's own index. */
  lemma {:induction false} JudgedSelf(index: Index, s: seq<Entry>, whole: seq<Entry>)
    requires DistinctIds(whole) && index == IndexOf(whole)
    requires |s| <= |whole| && s == whole[..|s|]
    ensures Judged(index, s) == []
  {
    if s != [] {
      var n := |s| - 1;
      assert s[..n] == whole[..n];
      JudgedSelf(index, s[..n], whole);
      assert s[n] == whole[n];
      IndexLastWins(whole, n);
      FirstDiffNoneIffSame(whole[n], whole[n]);
    }
  }

  /** Reads the old file into the index, line by line. */
  method BuildIndex(oldFile: seq<Entry>) returns (index: Index)
    ensures index == IndexOf(oldFile)
  {
    index := map[];
    for i := 0 to |oldFile|
      invariant index == IndexOf(oldFile[..i])
    {
      var e := oldFile[i];
      assert oldFile[..i + 1][..i] == oldFile[..i];
      index := index[e.id := e];
    }
    assert oldFile[..|oldFile|] == oldFile;
  }

  /**
   * The comparison of one record file pair: index the old file, stream the
   * new one deleting matched ids, then report every id left as DEL.
   */
  method Updates(oldFile: seq<Entry>, newFile: seq<Entry>) returns (report: seq<Line>)
    ensures IsFileReport(oldFile, newFile, report)
    ensures forall x :: Line(x, Del) in report <==> x in Ids(oldFile) && x !in Ids(newFile)
  {
    var index := BuildIndex(oldFile);
    ghost var index0 := index;
    report := [];
    var i := 0;
    while i < |newFile|
      invariant 0 <= i <= |newFile|
      invariant Stream(index0, newFile[..i]) == Progress(report, index)
    {
      var e := newFile[i];
      assert newFile[..i + 1][..i] == newFile[..i];
      var tag;
      tag, index := ReadNext(index, e);
      if tag.Some? {
        report := report + [Line(e.id, tag.value)];
      }
      i := i + 1;
    }
    assert newFile[..|newFile|] == newFile;
    StreamRest(index0, newFile);
    StreamLines(index0, newFile);
    IndexOfKeys(oldFile);
    var dels := SweepDeleted(index);
    ghost var streamed := report;
    report := report + dels;
    assert report[..|streamed|] == streamed && report[|streamed|..] == dels;
    DelLines(streamed, dels, index.Keys);
  }

  /**
   * Reading one record of the new file: an id missing from the index is
   * NEW; a present id is deleted from the index and the pair compared.
   */
  method ReadNext(index: Index, e: Entry) returns (tag: Option<Reason>, rest: Index)
    ensures Step(index, e) == Outcome(tag, rest)
  {
    if e.id !in index {
      tag, rest := Some(New), index;
    } else {
      var pe := index[e.id];
      rest := index - {e.id};
      tag := FirstDiff(pe, e);
    }
  }

  /** In a report made of streamed lines and a DEL sweep, the DEL lines name exactly the swept ids. */
  lemma DelLines(streamed: seq<Line>, dels: seq<Line>, keys: set<int>)
    requires forall l :: l in streamed ==> l.reason != Del
    requires IsDelSweep(dels, keys)
    ensures forall x :: Line(x, Del) in streamed + dels <==> x in keys
  {
    forall x ensures Line(x, Del) in streamed + dels <==> x in keys {
      assert Line(x, Del) !in streamed;
      if Line(x, Del) in dels {
        var k :| 0 <= k < |dels| && dels[k] == Line(x, Del);
      }
      if x in keys {
        assert x in LineIds(dels);
        var k :| 0 <= k < |dels| && dels[k].id == x;
        assert dels[k] == Line(x, Del);
      }
    }
  }

  /**
   * A set of ids that is not empty has an element; lets the sweep pick the
   * next key in no fixed order, as ranging over a map does. It is stated for
   * `int` on purpose: with a type parameter the verifier does not use it to
   * discharge the existence check of `:|`, so `SchemaDiff.SomeName` repeats
   * it for `string`.
   */
  lemma SomeKey(s: set<int>)
    ensures s == {} || exists x :: x in s
  {
    if forall x :: x !in s {
      assert s == {};
    }
  }

  /** Reports every id left in the index as DEL, once each, in map iteration order. */
  method SweepDeleted(index: Index) returns (dels: seq<Line>)
    ensures IsDelSweep(dels, index.Keys)
  {
    dels := [];
    var pending := index.Keys;
    while pending != {}
      invariant pending <= index.Keys
      invariant IsDelSweep(dels, index.Keys - pending)
      decreases pending
    {
      SomeKey(pending);
      var id :| id in pending;
      LineIdsSnoc(dels, Line(id, Del));
      dels := dels + [Line(id, Del)];
      pending := pending - {id};
    }
  }

  /**
   * The update pass over the numbered record files listed in the new
   * package: each name is opened in both packages and compared; a name
   * that cannot be opened in either stops the whole run.
   */
  method UpdatesAll(files: seq<string>, oldDir: map<string, seq<Entry>>, newDir: map<string, seq<Entry>>)
    returns (res: Result<seq<seq<Line>>, string>)
    ensures res.Success? <==> forall f :: f in files ==> f in oldDir && f in newDir
    ensures res.Failure? ==>
              exists i :: 0 <= i < |files| && files[i] == res.error &&
                (res.error !in oldDir || res.error !in newDir) &&
                forall j :: 0 <= j < i ==> files[j] in oldDir && files[j] in newDir
    ensures res.Success? ==>
              && |res.value| == |files|
              && forall i :: 0 <= i < |files| ==> IsFileReport(oldDir[files[i]], newDir[files[i]], res.value[i])
  {
    var reports: seq<seq<Line>> := [];
    for i := 0 to |files|
      invariant |reports| == i
      invariant forall j :: 0 <= j < i ==> files[j] in oldDir && files[j] in newDir
      invariant forall j :: 0 <= j < i ==> IsFileReport(oldDir[files[j]], newDir[files[j]], reports[j])
    {
      var file := files[i];
      if file !in oldDir || file !in newDir {
        return Failure(file);
      }
      var report := Updates(oldDir[file], newDir[file]);
      reports := reports + [report];
    }
    return Success(reports);
  }
}
