/**
 * The CreateTestData object: the extracted directory tree that it truncates in
 * place, the two UID remap tables that it fills while anonymizing, and the walk
 * that anonymizes every file of the tree into the output tree.
 */
module TestData {
  import opened Wrappers
  import opened Text
  import opened Paths
  import Fields
  import opened Series

  // ---------------------------------------------------------------------------
  // generate_uid, modelled as a counter
  // ---------------------------------------------------------------------------

  /** The UID that generate_uid hands out when its counter stands at c. */
  function Uid(c: nat): (u: string)
    ensures |u| > 5 && u[..5] == "2.25."
  {
    "2.25." + Decimal(c)
  }

  /** generate_uid never hands out the same UID twice. */
  lemma UidInjective(a: nat, b: nat)
    requires a != b
    ensures Uid(a) != Uid(b)
  {
    DecimalInjective(a, b);
    assert Uid(a)[5..] == Decimal(a) && Uid(b)[5..] == Decimal(b);
  }

  /** The UIDs handed out before the counter reached c. */
  function UidsBelow(c: nat): set<string>
  {
    set i | 0 <= i < c :: Uid(i)
  }

  /** The next UID is fresh: it was not handed out before. */
  lemma UidFresh(c: nat)
    ensures Uid(c) !in UidsBelow(c)
  {
    if Uid(c) in UidsBelow(c) {
      var i :| 0 <= i < c && Uid(i) == Uid(c);
      UidInjective(i, c);
    }
  }

  // ---------------------------------------------------------------------------
  // The remap tables
  // ---------------------------------------------------------------------------

  /** No two originals share a replacement. */
  predicate Injective(m: map<string, string>)
  {
    forall a, b :: a in m && b in m && a != b ==> m[a] != m[b]
  }

  /** A later state of a table: no entry has gone and no replacement was overwritten. */
  predicate Extends(later: map<string, string>, earlier: map<string, string>)
  {
    forall k :: k in earlier ==> k in later && later[k] == earlier[k]
  }

  /** Every replacement in the table came from generate_uid before the counter reached c, none twice. */
  predicate WellIssued(m: map<string, string>, c: nat)
  {
    Injective(m) && forall k :: k in m ==> m[k] in UidsBelow(c)
  }

  /** UIDs handed out earlier stay handed out. */
  lemma WellIssuedLater(m: map<string, string>, c: nat, d: nat)
    requires WellIssued(m, c) && c <= d
    ensures WellIssued(m, d)
  {
    forall k | k in m ensures m[k] in UidsBelow(d) {
      var i :| 0 <= i < c && Uid(i) == m[k];
    }
  }

  /** Entering a new original with the next UID keeps the table injective and well issued. */
  lemma InsertKeepsWellIssued(m: map<string, string>, uid: string, c: nat)
    requires WellIssued(m, c) && uid !in m
    ensures WellIssued(m[uid := Uid(c)], c + 1)
    ensures Extends(m[uid := Uid(c)], m)
  {
    UidFresh(c);
    WellIssuedLater(m, c, c + 1);
    assert Uid(c) in UidsBelow(c + 1);
  }

  /** Each UID a record holds has an entry in the corresponding table. */
  predicate Covered(ds: Fields.Record, studyUids: map<string, string>, seriesUids: map<string, string>)
  {
    && (Fields.StudyUid in ds ==> ds[Fields.StudyUid] in studyUids)
    && (Fields.SeriesUid in ds ==> ds[Fields.SeriesUid] in seriesUids)
  }

  /** The record once its StudyInstanceUID and SeriesInstanceUID have been replaced through the tables. */
  function ApplyUids(ds: Fields.Record, studyUids: map<string, string>, seriesUids: map<string, string>): (r: Fields.Record)
    requires Covered(ds, studyUids, seriesUids)
    ensures r.Keys == ds.Keys
  {
    var withStudy := if Fields.StudyUid in ds then ds[Fields.StudyUid := studyUids[ds[Fields.StudyUid]]] else ds;
    if Fields.SeriesUid in withStudy then withStudy[Fields.SeriesUid := seriesUids[ds[Fields.SeriesUid]]] else withStudy
  }

  /** The UID replacement adds no attribute, swaps each UID for its entry, and leaves every other attribute alone. */
  lemma ApplyUidsSpec(ds: Fields.Record, studyUids: map<string, string>, seriesUids: map<string, string>)
    requires Covered(ds, studyUids, seriesUids)
    ensures var r := ApplyUids(ds, studyUids, seriesUids);
      && r.Keys == ds.Keys
      && (Fields.StudyUid in ds ==> r[Fields.StudyUid] == studyUids[ds[Fields.StudyUid]])
      && (Fields.SeriesUid in ds ==> r[Fields.SeriesUid] == seriesUids[ds[Fields.SeriesUid]])
      && forall k :: k in ds && k != Fields.StudyUid && k != Fields.SeriesUid ==> r[k] == ds[k]
  {
  }

  /** Growing tables give the same replacements for a record whose UIDs were already entered. */
  lemma ApplyUidsStable(ds: Fields.Record, st: map<string, string>, se: map<string, string>,
                        st': map<string, string>, se': map<string, string>)
    requires Covered(ds, st, se) && Extends(st', st) && Extends(se', se)
    ensures Covered(ds, st', se') && ApplyUids(ds, st', se') == ApplyUids(ds, st, se)
  {
  }

  /** A saved file: where save_as writes it and the record written. */
  datatype Saved = Saved(path: string, record: Fields.Record)

  /** The name of the saved file. */
  function OutputFileName(dicomFile: string, ds: Fields.Record, rename: bool): string
  {
    if rename && "InstanceNumber" in ds then ZFill(ds["InstanceNumber"], 4) + ".dcm" else Basename(dicomFile)
  }

  /** A renamed file is named by its InstanceNumber, padded to at least four characters, with the same value. */
  lemma RenamedFileName(dicomFile: string, ds: Fields.Record)
    requires "InstanceNumber" in ds && ParseInt(ds["InstanceNumber"]).Some?
    ensures var name := OutputFileName(dicomFile, ds, true);
      && |name| >= 8 && name[|name| - 4..] == ".dcm"
      && ParseInt(name[..|name| - 4]) == ParseInt(ds["InstanceNumber"])
      && (|ds["InstanceNumber"]| >= 4 ==> name == ds["InstanceNumber"] + ".dcm")
  {
    var name := OutputFileName(dicomFile, ds, true);
    ZFillKeepsValue(ds["InstanceNumber"], 4);
    assert name[..|name| - 4] == ZFill(ds["InstanceNumber"], 4);
  }

  /**
   * A file that is not renamed keeps its own name and is written directly
   * into the output directory.
   */
  lemma SavedUnderOutputDir(dicomFile: string, ds: Fields.Record, rename: bool, outputDir: string)
    requires !(rename && "InstanceNumber" in ds)
    requires dicomFile != [] && dicomFile[|dicomFile| - 1] != '/'
    requires outputDir != [] && outputDir[|outputDir| - 1] != '/'
    ensures var path := Join(outputDir, OutputFileName(dicomFile, ds, rename));
      && Dirname(path) == outputDir
      && Basename(path) == Basename(dicomFile)
  {
    var name := Basename(dicomFile);
    assert name != [] by {
      assert dicomFile == dicomFile[..|dicomFile| - |name|] + name;
    }
    JoinSplit(outputDir, name);
  }

  /** The file _anonymize saves: its UIDs replaced through the tables, then the field table applied. */
  function SavedFile(dicomFile: string, ds: Fields.Record, outputDir: string,
                     studyUids: map<string, string>, seriesUids: map<string, string>,
                     patientName: string, studyDescription: string, canned: Fields.Canned, rename: bool): Saved
    requires Covered(ds, studyUids, seriesUids)
  {
    var record := Fields.AnonymizeFields(ApplyUids(ds, studyUids, seriesUids), patientName, studyDescription, canned);
    Saved(Join(outputDir, OutputFileName(dicomFile, record, rename)), record)
  }

  /**
   * Through injective tables, two saved records share a replacement
   * StudyInstanceUID exactly when their originals share one, and likewise for
   * SeriesInstanceUID; the field table leaves both UIDs as replaced.
   */
  lemma SameUidIffSameReplacement(ds1: Fields.Record, ds2: Fields.Record,
                                  studyUids: map<string, string>, seriesUids: map<string, string>,
                                  patientName: string, studyDescription: string, canned: Fields.Canned)
    requires Injective(studyUids) && Injective(seriesUids)
    requires Covered(ds1, studyUids, seriesUids) && Covered(ds2, studyUids, seriesUids)
    ensures var r1 := Fields.AnonymizeFields(ApplyUids(ds1, studyUids, seriesUids), patientName, studyDescription, canned);
      var r2 := Fields.AnonymizeFields(ApplyUids(ds2, studyUids, seriesUids), patientName, studyDescription, canned);
      && (Fields.StudyUid in ds1 && Fields.StudyUid in ds2 ==>
            (r1[Fields.StudyUid] == r2[Fields.StudyUid] <==> ds1[Fields.StudyUid] == ds2[Fields.StudyUid]))
      && (Fields.SeriesUid in ds1 && Fields.SeriesUid in ds2 ==>
            (r1[Fields.SeriesUid] == r2[Fields.SeriesUid] <==> ds1[Fields.SeriesUid] == ds2[Fields.SeriesUid]))
  {
    var a1 := ApplyUids(ds1, studyUids, seriesUids);
    var a2 := ApplyUids(ds2, studyUids, seriesUids);
    ApplyUidsSpec(ds1, studyUids, seriesUids);
    ApplyUidsSpec(ds2, studyUids, seriesUids);
    Fields.PreservedAttributes(a1, patientName, studyDescription, canned);
    Fields.PreservedAttributes(a2, patientName, studyDescription, canned);
  }

  // ---------------------------------------------------------------------------
  // The walk
  // ---------------------------------------------------------------------------

  /** One file as the walk meets it: the directory os.walk is in and the file's entry. */
  datatype Visit = Visit(dir: string, file: DicomFile)

  /** The files of the tree in the order the walk meets them. */
  function Visits(tree: seq<Dir>): (v: seq<Visit>)
    ensures forall i :: 0 <= i < |v| ==> exists d :: d in tree && v[i].dir == d.path && v[i].file in d.files
  {
    if tree == [] then []
    else seq(|tree[0].files|, i requires 0 <= i < |tree[0].files| => Visit(tree[0].path, tree[0].files[i])) + Visits(tree[1..])
  }

  /** The file the walk saves for a readable visit. */
  function WalkedFile(v: Visit, rootDicomDir: string, rootOutputDir: string,
                      studyUids: map<string, string>, seriesUids: map<string, string>,
                      patientName: string, studyDescription: string): Saved
    requires v.file.content.Some? && Covered(v.file.content.value, studyUids, seriesUids)
  {
    var fullFilename := Join(v.dir, v.file.name);
    SavedFile(fullFilename, v.file.content.value, OutputDir(fullFilename, rootDicomDir, rootOutputDir),
              studyUids, seriesUids, patientName, studyDescription, Fields.DefaultCanned, false)
  }

  /** What the walk saved for the first |saved| visits, read through the given tables. */
  predicate WalkedAs(saved: seq<Option<Saved>>, visits: seq<Visit>, rootDicomDir: string, rootOutputDir: string,
                     studyUids: map<string, string>, seriesUids: map<string, string>,
                     patientName: string, studyDescription: string)
    requires |saved| <= |visits|
  {
    forall i :: 0 <= i < |saved| ==>
      && (saved[i].None? <==> visits[i].file.content.None?)
      && (saved[i].Some? ==>
            && Covered(visits[i].file.content.value, studyUids, seriesUids)
            && saved[i].value == WalkedFile(visits[i], rootDicomDir, rootOutputDir, studyUids, seriesUids, patientName, studyDescription))
  }

  /** A walk record stays valid as the tables grow. */
  lemma WalkedAsLater(saved: seq<Option<Saved>>, visits: seq<Visit>, rootDicomDir: string, rootOutputDir: string,
                      st: map<string, string>, se: map<string, string>,
                      st': map<string, string>, se': map<string, string>,
                      patientName: string, studyDescription: string)
    requires |saved| <= |visits|
    requires WalkedAs(saved, visits, rootDicomDir, rootOutputDir, st, se, patientName, studyDescription)
    requires Extends(st', st) && Extends(se', se)
    ensures WalkedAs(saved, visits, rootDicomDir, rootOutputDir, st', se', patientName, studyDescription)
  {
    forall i | 0 <= i < |saved| && saved[i].Some?
      ensures Covered(visits[i].file.content.value, st', se')
      ensures saved[i].value == WalkedFile(visits[i], rootDicomDir, rootOutputDir, st', se', patientName, studyDescription)
    {
      ApplyUidsStable(visits[i].file.content.value, st, se, st', se');
    }
  }

  /** Extending a walk record by the entry of the next visit. */
  lemma WalkedAsSnoc(saved: seq<Option<Saved>>, visits: seq<Visit>, rootDicomDir: string, rootOutputDir: string,
                     studyUids: map<string, string>, seriesUids: map<string, string>,
                     patientName: string, studyDescription: string, entry: Option<Saved>)
    requires |saved| < |visits|
    requires WalkedAs(saved, visits, rootDicomDir, rootOutputDir, studyUids, seriesUids, patientName, studyDescription)
    requires entry.None? <==> visits[|saved|].file.content.None?
    requires entry.Some? ==>
      && Covered(visits[|saved|].file.content.value, studyUids, seriesUids)
      && entry.value == WalkedFile(visits[|saved|], rootDicomDir, rootOutputDir, studyUids, seriesUids, patientName, studyDescription)
    ensures WalkedAs(saved + [entry], visits, rootDicomDir, rootOutputDir, studyUids, seriesUids, patientName, studyDescription)
  {
    var s := saved + [entry];
    forall i | 0 <= i < |s|
      ensures s[i].None? <==> visits[i].file.content.None?
      ensures s[i].Some? ==>
        && Covered(visits[i].file.content.value, studyUids, seriesUids)
        && s[i].value == WalkedFile(visits[i], rootDicomDir, rootOutputDir, studyUids, seriesUids, patientName, studyDescription)
    {
      if i < |saved| {
        assert s[i] == saved[i];
      }
    }
  }

  /**
   * Across one walk, two saved records share a replacement StudyInstanceUID
   * exactly when their originals share one, and likewise for SeriesInstanceUID.
   */
  lemma WalkKeepsUidsConsistent(saved: seq<Option<Saved>>, visits: seq<Visit>, rootDicomDir: string, rootOutputDir: string,
                                studyUids: map<string, string>, seriesUids: map<string, string>,
                                patientName: string, studyDescription: string, i: nat, j: nat)
    requires |saved| <= |visits| && Injective(studyUids) && Injective(seriesUids)
    requires WalkedAs(saved, visits, rootDicomDir, rootOutputDir, studyUids, seriesUids, patientName, studyDescription)
    requires i < |saved| && j < |saved| && saved[i].Some? && saved[j].Some?
    ensures var ds1, ds2 := visits[i].file.content.value, visits[j].file.content.value;
      var r1, r2 := saved[i].value.record, saved[j].value.record;
      && (Fields.StudyUid in ds1 && Fields.StudyUid in ds2 ==>
            (r1[Fields.StudyUid] == r2[Fields.StudyUid] <==> ds1[Fields.StudyUid] == ds2[Fields.StudyUid]))
      && (Fields.SeriesUid in ds1 && Fields.SeriesUid in ds2 ==>
            (r1[Fields.SeriesUid] == r2[Fields.SeriesUid] <==> ds1[Fields.SeriesUid] == ds2[Fields.SeriesUid]))
  {
    var ds1, ds2 := visits[i].file.content.value, visits[j].file.content.value;
    assert saved[i].value.record == Fields.AnonymizeFields(ApplyUids(ds1, studyUids, seriesUids), patientName, studyDescription, Fields.DefaultCanned);
    assert saved[j].value.record == Fields.AnonymizeFields(ApplyUids(ds2, studyUids, seriesUids), patientName, studyDescription, Fields.DefaultCanned);
    SameUidIffSameReplacement(visits[i].file.content.value, visits[j].file.content.value,
                              studyUids, seriesUids, patientName, studyDescription, Fields.DefaultCanned);
  }

  /** One more entry of the list adds its name to the names so far. */
  lemma NameSetGrows(doomed: seq<Ranked>, j: nat)
    requires j < |doomed|
    ensures NameSet(doomed[..j + 1]) == NameSet(doomed[..j]) + {doomed[j].name}
  {
    assert Names(doomed[..j + 1]) == Names(doomed[..j]) + [doomed[j].name];
  }

  // ---------------------------------------------------------------------------
  // The object
  // ---------------------------------------------------------------------------

  /** The value a readable visit holds for keyword, as a set of at most one element. */
  function UidOf(v: Visit, keyword: string): set<string>
  {
    match v.file.content
    case None => {}
    case Some(ds) => if keyword in ds then {ds[keyword]} else {}
  }

  /** The values the readable visits hold for keyword: the keys the walk enters into that UID table. */
  function UidsOf(visits: seq<Visit>, keyword: string): set<string>
  {
    if visits == [] then {} else UidsOf(visits[..|visits| - 1], keyword) + UidOf(visits[|visits| - 1], keyword)
  }

  /** A table whose keys grew by the k-th visit's value now holds the values of the first k + 1 visits. */
  lemma UidsOfSnoc(visits: seq<Visit>, k: nat, keyword: string, initial: set<string>, before: set<string>, after: set<string>)
    requires k < |visits|
    requires before == initial + UidsOf(visits[..k], keyword)
    requires after == before + UidOf(visits[k], keyword)
    ensures after == initial + UidsOf(visits[..k + 1], keyword)
  {
    assert visits[..k + 1][..k] == visits[..k];
  }

  /** Every directory of the tree holds distinct file names, as a file system guarantees. */
  predicate TreeNamesDistinct(tree: seq<Dir>)
  {
    forall k :: 0 <= k < |tree| ==> NamesDistinct(tree[k])
  }

  class CreateTestData {
    /** The extracted tree, directory by directory as os.walk lists it. */
    var tree: seq<Dir>
    /** StudyInstanceUID_dict: original StudyInstanceUID to its replacement. */
    var studyUids: map<string, string>
    /** SeriesInstanceUID_dict: original SeriesInstanceUID to its replacement. */
    var seriesUids: map<string, string>
    /** How many UIDs generate_uid has handed out so far. */
    var issued: nat

    const patientName: string
    const studyDescription: string
    const keepFirstN: nat

    /** Both tables map distinct originals to distinct UIDs that generate_uid has handed out. */
    ghost predicate Valid()
      reads this
    {
      WellIssued(studyUids, issued) && WellIssued(seriesUids, issued)
    }

    constructor (tree: seq<Dir>, patientName: string, studyDescription: string, keepFirstN: nat)
      ensures Valid()
      ensures this.tree == tree && studyUids == map[] && seriesUids == map[] && issued == 0
      ensures this.patientName == patientName && this.studyDescription == studyDescription
      ensures this.keepFirstN == keepFirstN
    {
      this.tree := tree;
      this.patientName := patientName;
      this.studyDescription := studyDescription;
      this.keepFirstN := keepFirstN;
      studyUids := map[];
      seriesUids := map[];
      issued := 0;
    }

    /** pydicom.uid.generate_uid: the next UID of the counter. */
    method GenerateUid() returns (u: string)
      modifies this`issued
      ensures u == Uid(old(issued)) && issued == old(issued) + 1
    {
      u := Uid(issued);
      issued := issued + 1;
    }

    /**
     * Look the original up in one of the tables, entering a fresh UID for it
     * when it has no entry yet; returns the replacement and the table after.
     */
    method LookupOrInsert(table: map<string, string>, uid: string) returns (r: string, grown: map<string, string>)
      requires WellIssued(table, issued)
      modifies this`issued
      ensures WellIssued(grown, issued) && Extends(grown, table)
      ensures uid in grown && r == grown[uid] && grown.Keys == table.Keys + {uid}
      ensures uid in table ==> grown == table && issued == old(issued)
      ensures uid !in table ==> r !in UidsBelow(old(issued)) && issued == old(issued) + 1
    {
      if uid in table {
        r, grown := table[uid], table;
      } else {
        InsertKeepsWellIssued(table, uid, issued);
        UidFresh(issued);
        r := GenerateUid();
        grown := table[uid := r];
      }
    }

    /** The StudyInstanceUID block of _anonymize: replace it through StudyInstanceUID_dict. */
    method RemapStudyUid(ds: Fields.Record) returns (record: Fields.Record)
      requires Valid()
      modifies this`studyUids, this`issued
      ensures Valid() && Extends(studyUids, old(studyUids))
      ensures studyUids.Keys == old(studyUids).Keys + (if Fields.StudyUid in ds then {ds[Fields.StudyUid]} else {})
      ensures Fields.StudyUid in ds ==> ds[Fields.StudyUid] in studyUids
      ensures record == if Fields.StudyUid in ds then ds[Fields.StudyUid := studyUids[ds[Fields.StudyUid]]] else ds
    {
      record := ds;
      if Fields.StudyUid in ds {
        var r, grown := LookupOrInsert(studyUids, ds[Fields.StudyUid]);
        WellIssuedLater(seriesUids, old(issued), issued);
        studyUids := grown;
        record := ds[Fields.StudyUid := r];
      }
    }

    /** The SeriesInstanceUID block of _anonymize: replace it through SeriesInstanceUID_dict. */
    method RemapSeriesUid(ds: Fields.Record) returns (record: Fields.Record)
      requires Valid()
      modifies this`seriesUids, this`issued
      ensures Valid() && Extends(seriesUids, old(seriesUids))
      ensures seriesUids.Keys == old(seriesUids).Keys + (if Fields.SeriesUid in ds then {ds[Fields.SeriesUid]} else {})
      ensures Fields.SeriesUid in ds ==> ds[Fields.SeriesUid] in seriesUids
      ensures record == if Fields.SeriesUid in ds then ds[Fields.SeriesUid := seriesUids[ds[Fields.SeriesUid]]] else ds
    {
      record := ds;
      if Fields.SeriesUid in ds {
        var r, grown := LookupOrInsert(seriesUids, ds[Fields.SeriesUid]);
        WellIssuedLater(studyUids, old(issued), issued);
        seriesUids := grown;
        record := ds[Fields.SeriesUid := r];
      }
    }

    /**
     * Lines 152-167 of _anonymize: each UID the record holds is replaced
     * through its table, entering a fresh UID for an original not yet seen.
     */
    method RemapUids(ds: Fields.Record) returns (record: Fields.Record)
      requires Valid()
      modifies this`studyUids, this`seriesUids, this`issued
      ensures Valid()
      ensures Extends(studyUids, old(studyUids)) && Extends(seriesUids, old(seriesUids))
      ensures studyUids.Keys == old(studyUids).Keys + (if Fields.StudyUid in ds then {ds[Fields.StudyUid]} else {})
      ensures seriesUids.Keys == old(seriesUids).Keys + (if Fields.SeriesUid in ds then {ds[Fields.SeriesUid]} else {})
      ensures Covered(ds, studyUids, seriesUids)
      ensures record == ApplyUids(ds, studyUids, seriesUids)
    {
      var withStudy := RemapStudyUid(ds);
      assert Fields.StudyUid != Fields.SeriesUid;
      record := RemapSeriesUid(withStudy);
    }

    /**
     * _anonymize on a record that dcmread has produced: the UIDs are replaced
     * through the tables, the field table is applied, and the file is saved
     * under outputDir.
     */
    method Anonymize(dicomFile: string, ds: Fields.Record, outputDir: string,
                     patientName: string, studyDescription: string, canned: Fields.Canned, rename: bool)
      returns (saved: Saved)
      requires Valid()
      modifies this`studyUids, this`seriesUids, this`issued
      ensures Valid()
      ensures Extends(studyUids, old(studyUids)) && Extends(seriesUids, old(seriesUids))
      ensures studyUids.Keys == old(studyUids).Keys + (if Fields.StudyUid in ds then {ds[Fields.StudyUid]} else {})
      ensures seriesUids.Keys == old(seriesUids).Keys + (if Fields.SeriesUid in ds then {ds[Fields.SeriesUid]} else {})
      ensures Covered(ds, studyUids, seriesUids)
      ensures saved == SavedFile(dicomFile, ds, outputDir, studyUids, seriesUids, patientName, studyDescription, canned, rename)
    {
      var record := RemapUids(ds);
      record := Fields.AnonymizeFields(record, patientName, studyDescription, canned);
      saved := Saved(Join(outputDir, OutputFileName(dicomFile, record, rename)), record);
    }

    /**
     * One file of _walk_anonymize: a file that cannot be read is skipped (None);
     * a readable one is anonymized into the directory that mirrors its own
     * under rootOutputDir.
     */
    method WalkVisit(v: Visit, rootDicomDir: string, rootOutputDir: string, patientName: string, studyDescription: string)
      returns (entry: Option<Saved>)
      requires Valid()
      modifies this`studyUids, this`seriesUids, this`issued
      ensures Valid()
      ensures Extends(studyUids, old(studyUids)) && Extends(seriesUids, old(seriesUids))
      ensures studyUids.Keys == old(studyUids).Keys + UidOf(v, Fields.StudyUid)
      ensures seriesUids.Keys == old(seriesUids).Keys + UidOf(v, Fields.SeriesUid)
      ensures entry.None? <==> v.file.content.None?
      ensures entry.Some? ==>
        && Covered(v.file.content.value, studyUids, seriesUids)
        && entry.value == WalkedFile(v, rootDicomDir, rootOutputDir, studyUids, seriesUids, patientName, studyDescription)
    {
      match v.file.content {
        case None =>
          entry := None;
        case Some(ds) =>
          var fullFilename := Join(v.dir, v.file.name);
          var outputDir := OutputDir(fullFilename, rootDicomDir, rootOutputDir);
          var s := Anonymize(fullFilename, ds, outputDir, patientName, studyDescription, Fields.DefaultCanned, false);
          entry := Some(s);
      }
    }

    /**
     * _walk_anonymize: every file of the tree, in walk order, is read and
     * anonymized into the directory that mirrors its own under rootOutputDir;
     * a file that cannot be read is skipped (None) and the walk goes on. The
     * tables gain exactly the UIDs of the readable files.
     */
    method WalkAnonymize(rootDicomDir: string, rootOutputDir: string, patientName: string, studyDescription: string)
      returns (saved: seq<Option<Saved>>)
      requires Valid()
      modifies this`studyUids, this`seriesUids, this`issued
      ensures Valid()
      ensures Extends(studyUids, old(studyUids)) && Extends(seriesUids, old(seriesUids))
      ensures studyUids.Keys == old(studyUids).Keys + UidsOf(Visits(tree), Fields.StudyUid)
      ensures seriesUids.Keys == old(seriesUids).Keys + UidsOf(Visits(tree), Fields.SeriesUid)
      ensures |saved| == |Visits(tree)|
      ensures WalkedAs(saved, Visits(tree), rootDicomDir, rootOutputDir, studyUids, seriesUids, patientName, studyDescription)
    {
      var visits := Visits(tree);
      saved := [];
      var k := 0;
      while k < |visits|
        invariant k <= |visits| && |saved| == k
        invariant Valid()
        invariant Extends(studyUids, old(studyUids)) && Extends(seriesUids, old(seriesUids))
        invariant studyUids.Keys == old(studyUids).Keys + UidsOf(visits[..k], Fields.StudyUid)
        invariant seriesUids.Keys == old(seriesUids).Keys + UidsOf(visits[..k], Fields.SeriesUid)
        invariant WalkedAs(saved, visits, rootDicomDir, rootOutputDir, studyUids, seriesUids, patientName, studyDescription)
      {
        ghost var st, se := studyUids, seriesUids;
        var entry := WalkVisit(visits[k], rootDicomDir, rootOutputDir, patientName, studyDescription);
        UidsOfSnoc(visits, k, Fields.StudyUid, old(studyUids).Keys, st.Keys, studyUids.Keys);
        UidsOfSnoc(visits, k, Fields.SeriesUid, old(seriesUids).Keys, se.Keys, seriesUids.Keys);
        WalkedAsLater(saved, visits, rootDicomDir, rootOutputDir, st, se, studyUids, seriesUids, patientName, studyDescription);
        WalkedAsSnoc(saved, visits, rootDicomDir, rootOutputDir, studyUids, seriesUids, patientName, studyDescription, entry);
        saved := saved + [entry];
        k := k + 1;
      }
      assert visits[..k] == visits;
    }

    /** Remove one file, by name, from the k-th directory. */
    method RemoveFile(k: nat, name: string)
      requires k < |tree|
      modifies this`tree
      ensures tree == old(tree)[k := Dir(old(tree)[k].path, Without(old(tree)[k].files, {name}))]
    {
      tree := tree[k := Dir(tree[k].path, Without(tree[k].files, {name}))];
    }

    /** The removal loop: os.remove of every file of the k-th directory named in doomed, in order. */
    method RemoveAll(k: nat, doomed: seq<Ranked>)
      requires k < |tree|
      modifies this`tree
      ensures tree == old(tree)[k := Dir(old(tree)[k].path, Without(old(tree)[k].files, NameSet(doomed)))]
    {
      ghost var files := tree[k].files;
      WithoutNothing(files);
      assert NameSet(doomed[..0]) == {};
      var j := 0;
      while j < |doomed|
        invariant j <= |doomed|
        invariant tree == old(tree)[k := Dir(old(tree)[k].path, Without(files, NameSet(doomed[..j])))]
      {
        NameSetGrows(doomed, j);
        WithoutOneMore(files, NameSet(doomed[..j]), doomed[j].name);
        RemoveFile(k, doomed[j].name);
        j := j + 1;
      }
      assert doomed[..j] == doomed;
    }

    /**
     * One directory of _keep_first_n_images_each_series: false when reading an
     * InstanceNumber raised, in which case nothing was removed.
     */
    method KeepFirstNInDir(k: nat, n: nat) returns (ok: bool)
      requires k < |tree|
      modifies this`tree
      ensures ok == Truncatable(old(tree)[k], n)
      ensures ok ==> tree == old(tree)[k := Truncated(old(tree)[k], n)]
      ensures !ok ==> tree == old(tree)
    {
      var files := tree[k].files;
      if |files| <= n {
        assert tree[k] == Truncated(tree[k], n);
        return true;
      }
      var ranked := ReadInstanceNumbers(files);
      if ranked.None? {
        return false;
      }
      var sorted := SortByInstance(ranked.value);
      assert TruncateSeries(files, n) == Some(Without(files, NameSet(sorted[n..])));
      RemoveAll(k, sorted[n..]);
      return true;
    }

    /**
     * _keep_first_n_images_each_series over the whole tree. When reading an
     * InstanceNumber raises in some directory the pass stops there: the
     * directories before it are truncated, it and the rest are untouched.
     */
    method KeepFirstNImagesEachSeries(n: nat) returns (failedAt: Option<nat>)
      requires TreeNamesDistinct(tree)
      modifies this`tree
      ensures TreeNamesDistinct(tree)
      ensures |tree| == |old(tree)|
      ensures failedAt.None? ==> forall k :: 0 <= k < |tree| ==>
        Truncatable(old(tree)[k], n) && tree[k] == Truncated(old(tree)[k], n)
      ensures failedAt.Some? ==>
        && failedAt.value < |tree| && !Truncatable(old(tree)[failedAt.value], n)
        && (forall k :: 0 <= k < failedAt.value ==>
              Truncatable(old(tree)[k], n) && tree[k] == Truncated(old(tree)[k], n))
        && tree[failedAt.value..] == old(tree)[failedAt.value..]
    {
      var k := 0;
      while k < |tree|
        invariant k <= |tree| == |old(tree)|
        invariant forall i :: 0 <= i < k ==> Truncatable(old(tree)[i], n) && tree[i] == Truncated(old(tree)[i], n)
        invariant tree[k..] == old(tree)[k..]
        invariant TreeNamesDistinct(tree)
      {
        assert tree[k] == old(tree)[k] by { assert tree[k..][0] == old(tree)[k..][0]; }
        ghost var before := tree;
        var ok := KeepFirstNInDir(k, n);
        if !ok {
          return Some(k);
        }
        TruncatedKeepsNamesDistinct(before[k], n);
        assert tree[k + 1..] == old(tree)[k + 1..] by {
          forall i | k + 1 <= i < |tree| ensures tree[i] == old(tree)[i] {
            assert tree[k..][i - k] == old(tree)[k..][i - k];
          }
        }
        k := k + 1;
      }
      return None;
    }

    /**
     * run(): truncate every series, then anonymize the whole tree. None when
     * the truncation pass raised, in which case nothing was anonymized.
     */
    method Run(extractDir: string, anonymizeDir: string) returns (saved: Option<seq<Option<Saved>>>)
      requires Valid() && TreeNamesDistinct(tree)
      modifies this`tree, this`studyUids, this`seriesUids, this`issued
      ensures Valid() && TreeNamesDistinct(tree)
      ensures saved.None? <==> exists k :: 0 <= k < |old(tree)| && !Truncatable(old(tree)[k], keepFirstN)
      ensures saved.Some? ==>
        && |tree| == |old(tree)|
        && (forall k :: 0 <= k < |tree| ==> tree[k] == Truncated(old(tree)[k], keepFirstN))
        && (forall k :: 0 <= k < |tree| ==>
              |tree[k].files| == if |old(tree)[k].files| <= keepFirstN then |old(tree)[k].files| else keepFirstN)
        && |saved.value| == |Visits(tree)|
        && WalkedAs(saved.value, Visits(tree), extractDir, anonymizeDir, studyUids, seriesUids, patientName, studyDescription)
    {
      var failedAt := KeepFirstNImagesEachSeries(keepFirstN);
      if failedAt.Some? {
        return None;
      }
      forall k | 0 <= k < |tree|
        ensures |tree[k].files| == if |old(tree)[k].files| <= keepFirstN then |old(tree)[k].files| else keepFirstN
      {
        TruncatedSize(old(tree)[k], keepFirstN);
      }
      var s := WalkAnonymize(extractDir, anonymizeDir, patientName, studyDescription);
      saved := Some(s);
    }
  }
}
