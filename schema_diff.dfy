/**
 * The schema-diff engine: for each dictionary file of the old package,
 * compare it field by field with the same-named file of the new package
 * and sort every field into added, removed or type-changed.
 */
module SchemaDiff {
  import opened Wrappers

  /** A dictionary document: field name to the field's declared type label. */
  type Doc = map<string, string>

  /** A type change of one field. */
  datatype Change = Change(from: string, to: string)

  /** The three buckets of one dictionary's comparison. */
  datatype DictDiff = DictDiff(added: set<string>, removed: set<string>, changes: map<string, Change>)

  /** The buckets of a dictionary that had no counterpart to compare with. */
  const NoDiff := DictDiff({}, {}, map[])

  /**
   * Reference result of comparing two documents: fields only in the new one
   * are added, fields only in the old one are removed, fields in both whose
   * labels differ are changed from the old label to the new one.
   */
  function Diff(oldDoc: Doc, newDoc: Doc): DictDiff {
    DictDiff(newDoc.Keys - oldDoc.Keys, oldDoc.Keys - newDoc.Keys, ChangesAmong(oldDoc, newDoc, oldDoc.Keys))
  }

  /** The type changes among the fields `names`. */
  function ChangesAmong(oldDoc: Doc, newDoc: Doc, names: set<string>): map<string, Change> {
    map k | k in names && k in oldDoc && k in newDoc && oldDoc[k] != newDoc[k] :: Change(oldDoc[k], newDoc[k])
  }

  /** Adding one old field to `names` adds its change, if it has one, and nothing else. */
  lemma ChangesAmongStep(oldDoc: Doc, newDoc: Doc, names: set<string>, k: string)
    requires k in oldDoc && k !in names
    ensures ChangesAmong(oldDoc, newDoc, names + {k}) ==
      if k in newDoc && oldDoc[k] != newDoc[k] then ChangesAmong(oldDoc, newDoc, names)[k := Change(oldDoc[k], newDoc[k])]
      else ChangesAmong(oldDoc, newDoc, names)
  {
  }

  /** A field present in both documents with the same label. */
  predicate Unchanged(oldDoc: Doc, newDoc: Doc, k: string) {
    k in oldDoc && k in newDoc && oldDoc[k] == newDoc[k]
  }

  /** How many of the four outcomes (added, removed, changed, unchanged) a field has. */
  function Placements(oldDoc: Doc, newDoc: Doc, k: string): nat {
    var d := Diff(oldDoc, newDoc);
    (if k in d.added then 1 else 0) + (if k in d.removed then 1 else 0) +
    (if k in d.changes then 1 else 0) + (if Unchanged(oldDoc, newDoc, k) then 1 else 0)
  }

  /**
   * Every field name of either document lands in exactly one of added,
   * removed, changed and unchanged, and a name in neither lands in none.
   */
  lemma DiffPartition(oldDoc: Doc, newDoc: Doc, k: string)
    ensures Placements(oldDoc, newDoc, k) == if k in oldDoc || k in newDoc then 1 else 0
  {
  }

  /** A document compared with itself has nothing to report. */
  lemma DiffSelf(doc: Doc)
    ensures Diff(doc, doc) == NoDiff
  {
  }

  /**
   * A field kept with the same label is not reported (the order of fields
   * is lost once a document is a map); a change records the old label as
   * `from` and the new one as `to`.
   */
  lemma DiffScenarios()
    ensures Diff(map["age" := "integer", "name" := "string"], map["name" := "string", "email" := "string"])
         == DictDiff({"email"}, {"age"}, map[])
    ensures Diff(map["score" := "integer"], map["score" := "string"])
         == DictDiff({}, {}, map["score" := Change("integer", "string")])
  {
    var o := map["age" := "integer", "name" := "string"];
    var n := map["name" := "string", "email" := "string"];
    assert "age" != "name" && "name" != "email" && "age" != "email";
    assert ChangesAmong(o, n, o.Keys) == map[];
    assert n.Keys - o.Keys == {"email"};
    assert o.Keys - n.Keys == {"age"};
    var o2 := map["score" := "integer"];
    var n2 := map["score" := "string"];
    assert "integer" != "string";
    assert ChangesAmong(o2, n2, o2.Keys) == map["score" := Change("integer", "string")];
  }

  /**
   * A set of names that is not empty has an element; lets a loop visit the
   * keys of a map in no fixed order, as ranging over a map does. The
   * `string` twin of `RecordDiff.SomeKey`, kept separate because a generic
   * version does not serve the existence check of `:|`.
   */
  lemma SomeName(s: set<string>)
    ensures s == {} || exists x :: x in s
  {
    if forall x :: x !in s {
      assert s == {};
    }
  }

  /**
   * The inner scan over the working copy, stopping at the key equal to
   * `name`.
   */
  method FindField(work: Doc, name: string) returns (found: bool)
    ensures found <==> name in work
  {
    found := false;
    var scan := work.Keys;
    while scan != {}
      invariant scan <= work.Keys
      invariant name in work ==> name in scan
      decreases scan
    {
      SomeName(scan);
      var nk :| nk in scan;
      if nk == name {
        found := true;
        break;
      }
      scan := scan - {nk};
    }
  }

  /**
   * Compares one pair of documents: each old field is looked up in a
   * working copy of the new document and, when found, deleted from it
   * whatever its label; whatever is left in the copy at the end is added.
   */
  method CompareDicts(oldDoc: Doc, newDoc: Doc) returns (d: DictDiff)
    ensures d == Diff(oldDoc, newDoc)
  {
    var work := newDoc;
    var removed: set<string> := {};
    var changes: map<string, Change> := map[];
    var pending := oldDoc.Keys;
    while pending != {}
      invariant pending <= oldDoc.Keys
      invariant work == newDoc - (oldDoc.Keys - pending)
      invariant removed == (oldDoc.Keys - pending) - newDoc.Keys
      invariant changes == ChangesAmong(oldDoc, newDoc, oldDoc.Keys - pending)
      decreases pending
    {
      SomeName(pending);
      var name :| name in pending;
      ChangesAmongStep(oldDoc, newDoc, oldDoc.Keys - pending, name);
      assert (oldDoc.Keys - pending) + {name} == oldDoc.Keys - (pending - {name});
      var found := FindField(work, name);
      if found {
        var newType := work[name];
        work := work - {name};
        if oldDoc[name] != newType {
          changes := changes[name := Change(oldDoc[name], newType)];
        }
      } else {
        removed := removed + {name};
      }
      pending := pending - {name};
    }
    var added: set<string> := {};
    var rest := work.Keys;
    while rest != {}
      invariant rest <= work.Keys
      invariant added == work.Keys - rest
      decreases rest
    {
      SomeName(rest);
      var name :| name in rest;
      added := added + {name};
      rest := rest - {name};
    }
    d := DictDiff(added, removed, changes);
  }

  /**
   * The name a dictionary's section is filed under: the file name with
   * every non-overlapping ".json", scanned left to right, removed.
   */
  function ReportName(f: string): (r: string)
    ensures NoJson(f) ==> r == f
  {
    NoJsonStep(f);
    if |f| >= 5 && f[..5] == ".json" then ReportName(f[5..])
    else if f == [] then []
    else [f[0]] + ReportName(f[1..])
  }

  /** `n` holds ".json" starting at position `i`. */
  predicate JsonAt(n: string, i: int) {
    0 <= i <= |n| - 5 && n[i..i + 5] == ".json"
  }

  /** `n` holds no ".json" anywhere. */
  predicate NoJson(n: string) {
    forall i | 0 <= i <= |n| - 5 :: !JsonAt(n, i)
  }

  /** A name with no ".json" does not start with one, and neither does any of its tails. */
  lemma NoJsonStep(n: string)
    ensures NoJson(n) && |n| >= 5 ==> n[..5] != ".json"
    ensures NoJson(n) && n != [] ==> NoJson(n[1..])
  {
    if NoJson(n) && n != [] {
      assert !JsonAt(n, 0);
      var t := n[1..];
      forall i | 0 <= i <= |t| - 5 ensures !JsonAt(t, i) {
        assert !JsonAt(n, i + 1);
        if 0 <= i <= |t| - 5 {
          assert t[i..i + 5] == n[i + 1..i + 1 + 5];
        }
      }
    }
  }

  /** Removing the occurrences of ".json" strips the file suffix. */
  lemma {:induction false} ReportNameDropsSuffix(n: string)
    ensures ReportName(n + ".json") == ReportName(n)
  {
    var t := n + ".json";
    if n == [] {
      assert t == ".json" && t[5..] == [];
    } else if |n| >= 5 && n[..5] == ".json" {
      assert t[..5] == n[..5] && t[5..] == n[5..] + ".json";
      ReportNameDropsSuffix(n[5..]);
    } else {
      if |n| >= 5 {
        assert t[..5] == n[..5];
      } else {
        assert t[|n|] == '.' && ".json"[|n|] != '.';
      }
      assert t[1..] == n[1..] + ".json";
      ReportNameDropsSuffix(n[1..]);
    }
  }

  /** How one run of the final report ends. */
  datatype FinalReport =
    | NoFiles                                   // a package directory listed no file: nothing is written
    | Aborted(file: string)                     // a dictionary could not be read: the run exits
    | Written(dicts: map<string, DictDiff>)     // the buckets, per report name

  /** Both copies of every dictionary that has a counterpart can be read. */
  predicate Readable(dictOld: seq<string>, dictNew: seq<string>, oldDocs: map<string, Doc>, newDocs: map<string, Doc>) {
    forall f :: f in dictOld && f in dictNew ==> f in oldDocs && f in newDocs
  }

  /** The buckets filed for the old dictionary file `f`. */
  function DictResult(f: string, dictNew: seq<string>, oldDocs: map<string, Doc>, newDocs: map<string, Doc>): DictDiff {
    if f in dictNew && f in oldDocs && f in newDocs then Diff(oldDocs[f], newDocs[f]) else NoDiff
  }

  /**
   * The dictionary part of the final report. `oldFiles`/`newFiles` are the
   * full listings of the two package directories, `dictOld`/`dictNew` their
   * dictionary files, `oldDocs`/`newDocs` the contents of the files that
   * can be read.
   */
  method Report(oldFiles: seq<string>, newFiles: seq<string>, dictOld: seq<string>, dictNew: seq<string>,
                oldDocs: map<string, Doc>, newDocs: map<string, Doc>)
    returns (out: FinalReport)
    ensures out.NoFiles? <==> |newFiles| == 0 || |oldFiles| == 0
    ensures out.Written? <==> |newFiles| > 0 && |oldFiles| > 0 && Readable(dictOld, dictNew, oldDocs, newDocs)
    ensures out.Aborted? ==> FirstUnreadable(dictOld, dictNew, oldDocs, newDocs, out.file)
    ensures out.Written? ==> IsSectionMap(dictOld, dictNew, oldDocs, newDocs, out.dicts)
  {
    if |newFiles| == 0 || |oldFiles| == 0 {
      return NoFiles;
    }
    out := Sections(dictOld, dictNew, oldDocs, newDocs);
  }

  /** `f` is the first old dictionary, in listing order, whose pair cannot be read. */
  predicate FirstUnreadable(dictOld: seq<string>, dictNew: seq<string>, oldDocs: map<string, Doc>, newDocs: map<string, Doc>, f: string) {
    exists i :: 0 <= i < |dictOld| && dictOld[i] == f && f in dictNew && (f !in oldDocs || f !in newDocs) &&
      forall k :: 0 <= k < i && dictOld[k] in dictNew ==> dictOld[k] in oldDocs && dictOld[k] in newDocs
  }

  /**
   * The sections of a written report: one per report name of an old
   * dictionary, holding the comparison of the last old file with that name.
   */
  predicate IsSectionMap(dictOld: seq<string>, dictNew: seq<string>, oldDocs: map<string, Doc>, newDocs: map<string, Doc>,
                         dicts: map<string, DictDiff>) {
    && dicts.Keys == (set k | 0 <= k < |dictOld| :: ReportName(dictOld[k]))
    && forall i :: 0 <= i < |dictOld| && LastWithName(dictOld, i, |dictOld|) ==>
         dicts[ReportName(dictOld[i])] == DictResult(dictOld[i], dictNew, oldDocs, newDocs)
  }

  /**
   * The loop over the old dictionary files: every old dictionary gets a
   * section, empty when the new package has no file of that name; a new
   * dictionary with no old counterpart gets none; the first unreadable pair
   * ends the run.
   */
  method Sections(dictOld: seq<string>, dictNew: seq<string>, oldDocs: map<string, Doc>, newDocs: map<string, Doc>)
    returns (out: FinalReport)
    ensures !out.NoFiles?
    ensures out.Written? <==> Readable(dictOld, dictNew, oldDocs, newDocs)
    ensures out.Aborted? ==> FirstUnreadable(dictOld, dictNew, oldDocs, newDocs, out.file)
    ensures out.Written? ==> IsSectionMap(dictOld, dictNew, oldDocs, newDocs, out.dicts)
  {
    var dicts: map<string, DictDiff> := map[];
    for i := 0 to |dictOld|
      invariant dicts.Keys == (set k | 0 <= k < i :: ReportName(dictOld[k]))
      invariant forall k :: 0 <= k < i && LastWithName(dictOld, k, i) ==>
        ReportName(dictOld[k]) in dicts && dicts[ReportName(dictOld[k])] == DictResult(dictOld[k], dictNew, oldDocs, newDocs)
      invariant ReadSoFar(dictOld, dictNew, oldDocs, newDocs, i)
    {
      var readable;
      readable, dicts := FileNext(dictOld, dictNew, oldDocs, newDocs, dicts, i);
      if !readable {
        return Aborted(dictOld[i]);
      }
    }
    SectionsDone(dictOld, dictNew, oldDocs, newDocs, dicts);
    return Written(dicts);
  }

  /**
   * One turn of the loop over the old dictionaries: compare file `i` and
   * file its section under its report name, or report that its pair cannot
   * be read.
   */
  method FileNext(dictOld: seq<string>, dictNew: seq<string>, oldDocs: map<string, Doc>, newDocs: map<string, Doc>,
                  dicts: map<string, DictDiff>, i: int)
    returns (readable: bool, after: map<string, DictDiff>)
    requires 0 <= i < |dictOld|
    requires dicts.Keys == (set k | 0 <= k < i :: ReportName(dictOld[k]))
    requires forall k :: 0 <= k < i && LastWithName(dictOld, k, i) ==>
      ReportName(dictOld[k]) in dicts && dicts[ReportName(dictOld[k])] == DictResult(dictOld[k], dictNew, oldDocs, newDocs)
    requires ReadSoFar(dictOld, dictNew, oldDocs, newDocs, i)
    ensures readable ==> after.Keys == (set k | 0 <= k < i + 1 :: ReportName(dictOld[k]))
    ensures readable ==> forall k :: 0 <= k < i + 1 && LastWithName(dictOld, k, i + 1) ==>
      ReportName(dictOld[k]) in after && after[ReportName(dictOld[k])] == DictResult(dictOld[k], dictNew, oldDocs, newDocs)
    ensures readable ==> ReadSoFar(dictOld, dictNew, oldDocs, newDocs, i + 1)
    ensures !readable ==> FirstUnreadable(dictOld, dictNew, oldDocs, newDocs, dictOld[i])
    ensures !readable ==> !Readable(dictOld, dictNew, oldDocs, newDocs)
  {
    var of := dictOld[i];
    var section;
    readable, section := CompareSection(of, dictNew, oldDocs, newDocs);
    if !readable {
      AbortAt(dictOld, dictNew, oldDocs, newDocs, i);
      return false, dicts;
    }
    NamesSnoc(dictOld, i);
    FileSection(dictOld, i, dicts, section, dictNew, oldDocs, newDocs);
    after := dicts[ReportName(of) := section];
  }

  /** Every one of the first `i` old dictionaries with a counterpart could be read. */
  predicate ReadSoFar(dictOld: seq<string>, dictNew: seq<string>, oldDocs: map<string, Doc>, newDocs: map<string, Doc>, i: int)
    requires 0 <= i <= |dictOld|
  {
    forall k :: 0 <= k < i && dictOld[k] in dictNew ==> dictOld[k] in oldDocs && dictOld[k] in newDocs
  }

  /** When the loop has filed every old dictionary, the sections form the report's section map. */
  lemma SectionsDone(dictOld: seq<string>, dictNew: seq<string>, oldDocs: map<string, Doc>, newDocs: map<string, Doc>,
                     dicts: map<string, DictDiff>)
    requires dicts.Keys == (set k | 0 <= k < |dictOld| :: ReportName(dictOld[k]))
    requires forall k :: 0 <= k < |dictOld| && LastWithName(dictOld, k, |dictOld|) ==>
      ReportName(dictOld[k]) in dicts && dicts[ReportName(dictOld[k])] == DictResult(dictOld[k], dictNew, oldDocs, newDocs)
    requires ReadSoFar(dictOld, dictNew, oldDocs, newDocs, |dictOld|)
    ensures Readable(dictOld, dictNew, oldDocs, newDocs)
    ensures IsSectionMap(dictOld, dictNew, oldDocs, newDocs, dicts)
  {
    forall f | f in dictOld && f in dictNew ensures f in oldDocs && f in newDocs {
      var k :| 0 <= k < |dictOld| && dictOld[k] == f;
    }
  }

  /** The first old dictionary with an unreadable pair is where the run aborts, and the listing is not readable. */
  lemma AbortAt(dictOld: seq<string>, dictNew: seq<string>, oldDocs: map<string, Doc>, newDocs: map<string, Doc>, i: int)
    requires 0 <= i < |dictOld| && dictOld[i] in dictNew && (dictOld[i] !in oldDocs || dictOld[i] !in newDocs)
    requires ReadSoFar(dictOld, dictNew, oldDocs, newDocs, i)
    ensures FirstUnreadable(dictOld, dictNew, oldDocs, newDocs, dictOld[i])
    ensures !Readable(dictOld, dictNew, oldDocs, newDocs)
  {
    assert dictOld[i] in dictOld;
  }

  /** Filing the section of file `i` keeps every earlier section that no later file replaced. */
  lemma FileSection(files: seq<string>, i: int, before: map<string, DictDiff>, section: DictDiff,
                    dictNew: seq<string>, oldDocs: map<string, Doc>, newDocs: map<string, Doc>)
    requires 0 <= i < |files|
    requires forall k :: 0 <= k < i && LastWithName(files, k, i) ==>
      ReportName(files[k]) in before && before[ReportName(files[k])] == DictResult(files[k], dictNew, oldDocs, newDocs)
    requires section == DictResult(files[i], dictNew, oldDocs, newDocs)
    ensures var after := before[ReportName(files[i]) := section];
      forall k :: 0 <= k < i + 1 && LastWithName(files, k, i + 1) ==>
        ReportName(files[k]) in after && after[ReportName(files[k])] == DictResult(files[k], dictNew, oldDocs, newDocs)
  {
    var after := before[ReportName(files[i]) := section];
    forall k | 0 <= k < i + 1 && LastWithName(files, k, i + 1)
      ensures ReportName(files[k]) in after && after[ReportName(files[k])] == DictResult(files[k], dictNew, oldDocs, newDocs)
    {
      if k < i {
        assert LastWithName(files, k, i);
        assert ReportName(files[k]) != ReportName(files[i]);
      }
    }
  }

  /** The report names of the first `i + 1` files are those of the first `i` plus the name of file `i`. */
  lemma NamesSnoc(files: seq<string>, i: int)
    requires 0 <= i < |files|
    ensures (set k | 0 <= k < i + 1 :: ReportName(files[k])) == (set k | 0 <= k < i :: ReportName(files[k])) + {ReportName(files[i])}
  {
  }

  /**
   * The inner loop for one old dictionary file: scan the new listing for
   * the same name and compare the two documents there. `readable` is false
   * when a matching file cannot be read, which ends the run.
   */
  method CompareSection(of: string, dictNew: seq<string>, oldDocs: map<string, Doc>, newDocs: map<string, Doc>)
    returns (readable: bool, section: DictDiff)
    ensures readable <==> (of in dictNew ==> of in oldDocs && of in newDocs)
    ensures readable ==> section == DictResult(of, dictNew, oldDocs, newDocs)
  {
    section := NoDiff;
    for j := 0 to |dictNew|
      invariant section == if of in dictNew[..j] && of in oldDocs && of in newDocs then Diff(oldDocs[of], newDocs[of]) else NoDiff
      invariant of in dictNew[..j] ==> of in oldDocs && of in newDocs
    {
      if of == dictNew[j] {
        if of !in oldDocs || of !in newDocs {
          return false, section;
        }
        section := CompareDicts(oldDocs[of], newDocs[of]);
      }
      assert dictNew[..j + 1] == dictNew[..j] + [dictNew[j]];
    }
    assert dictNew[..|dictNew|] == dictNew;
    readable := true;
  }

  /** No later file among the first `n` is filed under the same report name as file `i`. */
  predicate LastWithName(files: seq<string>, i: int, n: int)
    requires 0 <= i < n <= |files|
  {
    forall j :: i < j < n ==> ReportName(files[j]) != ReportName(files[i])
  }
}
