/**
 * Truncation of each series directory to its first n images by InstanceNumber:
 * a stable ascending sort of the listing, and removal of everything after
 * position n.
 */
module Series {
  import opened Wrappers
  import opened Text
  import Fields

  /** A file of a directory listing; content is None when it cannot be read as DICOM. */
  datatype DicomFile = DicomFile(name: string, content: Option<Fields.Record>)

  /** A directory as os.walk lists it: its path and the files directly in it. */
  datatype Dir = Dir(path: string, files: seq<DicomFile>)

  /** A [file, int(ds.InstanceNumber)] pair of the list the source sorts. */
  datatype Ranked = Ranked(name: string, instance: int)

  /** int(ds.InstanceNumber): None when the file is unreadable, lacks the attribute or holds no integer. */
  function InstanceNumber(f: DicomFile): Option<int>
  {
    match f.content
    case None => None
    case Some(ds) => if "InstanceNumber" in ds then ParseInt(ds["InstanceNumber"]) else None
  }

  function RankOf(f: DicomFile): Ranked
    requires InstanceNumber(f).Some?
  {
    Ranked(f.name, InstanceNumber(f).value)
  }

  /** The list of [file, InstanceNumber] pairs, or None as soon as one file has no integer InstanceNumber. */
  function Rank(files: seq<DicomFile>): (r: Option<seq<Ranked>>)
    ensures r.Some? <==> forall i :: 0 <= i < |files| ==> InstanceNumber(files[i]).Some?
    ensures r.Some? ==> |r.value| == |files| && forall i :: 0 <= i < |files| ==> r.value[i] == RankOf(files[i])
  {
    if files == [] then Some([])
    else match InstanceNumber(files[0])
      case None => None
      case Some(k) =>
        match Rank(files[1..])
        case None => None
        case Some(rest) => Some([Ranked(files[0].name, k)] + rest)
  }

  predicate Distinct<T(==)>(s: seq<T>)
  {
    forall i, j :: 0 <= i < j < |s| ==> s[i] != s[j]
  }

  function Elems<T>(s: seq<T>): set<T>
  {
    set x | x in s
  }

  function FileNames(files: seq<DicomFile>): (r: seq<string>)
    ensures |r| == |files| && forall i :: 0 <= i < |files| ==> r[i] == files[i].name
  {
    seq(|files|, i requires 0 <= i < |files| => files[i].name)
  }

  function Names(s: seq<Ranked>): (r: seq<string>)
    ensures |r| == |s| && forall i :: 0 <= i < |s| ==> r[i] == s[i].name
  {
    seq(|s|, i requires 0 <= i < |s| => s[i].name)
  }

  function NameSet(s: seq<Ranked>): set<string>
  {
    Elems(Names(s))
  }

  predicate SortedByInstance(s: seq<Ranked>)
  {
    forall i, j :: 0 <= i < j < |s| ==> s[i].instance <= s[j].instance
  }

  /** Where Insert puts x: after every leading entry with a smaller InstanceNumber. */
  function InsertPos(x: Ranked, s: seq<Ranked>): (p: nat)
    ensures p <= |s|
    ensures forall k :: 0 <= k < p ==> s[k].instance < x.instance
    ensures p < |s| ==> x.instance <= s[p].instance
  {
    if s == [] || x.instance <= s[0].instance then 0 else 1 + InsertPos(x, s[1..])
  }

  /** Putting x at a position that fits the order keeps the list sorted. */
  lemma SpliceSorted(x: Ranked, s: seq<Ranked>, p: nat)
    requires SortedByInstance(s) && p <= |s|
    requires forall k :: 0 <= k < p ==> s[k].instance < x.instance
    requires p < |s| ==> x.instance <= s[p].instance
    ensures SortedByInstance(s[..p] + [x] + s[p..])
  {
    var r := s[..p] + [x] + s[p..];
    assert forall i :: 0 <= i < |r| ==> r[i] == if i < p then s[i] else if i == p then x else s[i - 1];
  }

  /** Insert x into a sorted list, before every entry whose InstanceNumber is not smaller. */
  function Insert(x: Ranked, s: seq<Ranked>): (r: seq<Ranked>)
    requires SortedByInstance(s)
    ensures |r| == |s| + 1
    ensures SortedByInstance(r)
    ensures multiset(r) == multiset(s) + multiset{x}
  {
    var p := InsertPos(x, s);
    assert s == s[..p] + s[p..];
    SpliceSorted(x, s, p);
    s[..p] + [x] + s[p..]
  }

  /** Where an entry already in the list ends up after the insertion. */
  lemma InsertIndex(x: Ranked, s: seq<Ranked>, k: nat)
    requires SortedByInstance(s) && k < |s|
    ensures Insert(x, s)[if k < InsertPos(x, s) then k else k + 1] == s[k]
    ensures Insert(x, s)[InsertPos(x, s)] == x
  {
    var p := InsertPos(x, s);
    assert Insert(x, s) == s[..p] + [x] + s[p..];
  }

  /** Python's sorted(pairs, key=lambda x: x[1]): ascending InstanceNumber, ties in listing order. */
  function SortByInstance(s: seq<Ranked>): (r: seq<Ranked>)
    ensures |r| == |s|
    ensures SortedByInstance(r)
    ensures multiset(r) == multiset(s)
  {
    if s == [] then []
    else
      assert s == [s[0]] + s[1..];
      Insert(s[0], SortByInstance(s[1..]))
  }

  /** a is listed somewhere before b in s. */
  predicate Before(s: seq<Ranked>, a: Ranked, b: Ranked)
  {
    exists i, j :: 0 <= i < j < |s| && s[i] == a && s[j] == b
  }

  /** Inserting keeps the relative order of the entries already there. */
  lemma InsertKeepsOrder(x: Ranked, s: seq<Ranked>, a: Ranked, b: Ranked)
    requires SortedByInstance(s) && Before(s, a, b)
    ensures Before(Insert(x, s), a, b)
  {
    var i, j :| 0 <= i < j < |s| && s[i] == a && s[j] == b;
    var p := InsertPos(x, s);
    InsertIndex(x, s, i);
    InsertIndex(x, s, j);
    var i' := if i < p then i else i + 1;
    var j' := if j < p then j else j + 1;
    assert Insert(x, s)[i'] == a && Insert(x, s)[j'] == b;
  }

  /** Inserting x puts it before every entry with the same InstanceNumber. */
  lemma InsertGoesFirst(x: Ranked, s: seq<Ranked>, b: Ranked)
    requires SortedByInstance(s) && b in s && b.instance == x.instance
    ensures Before(Insert(x, s), x, b)
  {
    var j :| 0 <= j < |s| && s[j] == b;
    var p := InsertPos(x, s);
    InsertIndex(x, s, j);
    assert p <= j;
    assert Insert(x, s)[p] == x && Insert(x, s)[j + 1] == b;
  }

  /** The sort is stable: of two entries with the same InstanceNumber, the earlier-listed one stays first. */
  lemma {:induction false} SortIsStable(s: seq<Ranked>, a: Ranked, b: Ranked)
    requires Before(s, a, b) && a.instance == b.instance
    ensures Before(SortByInstance(s), a, b)
  {
    var i, j :| 0 <= i < j < |s| && s[i] == a && s[j] == b;
    var t := SortByInstance(s[1..]);
    if i == 0 {
      assert s[1..][j - 1] == b;
      assert b in multiset(t);
      InsertGoesFirst(s[0], t, b);
    } else {
      assert s[1..][i - 1] == a && s[1..][j - 1] == b;
      SortIsStable(s[1..], a, b);
      InsertKeepsOrder(s[0], t, a, b);
    }
  }

  /** A list without repetitions has as many distinct elements as entries, and only such a list does. */
  lemma {:induction false} DistinctCardinality<T>(s: seq<T>)
    ensures |Elems(s)| <= |s|
    ensures Distinct(s) <==> |Elems(s)| == |s|
  {
    if s != [] {
      var t := s[1..];
      DistinctCardinality(t);
      assert Elems(s) == {s[0]} + Elems(t) by {
        assert s == [s[0]] + t;
      }
      if s[0] in t {
        var j :| 0 <= j < |t| && t[j] == s[0];
        assert s[0] == s[j + 1];
        assert !Distinct(s);
        assert Elems(s) == Elems(t);
      } else {
        assert s[0] !in Elems(t);
        assert Distinct(s) <==> Distinct(t) by {
          if Distinct(t) {
            forall i, j | 0 <= i < j < |s| ensures s[i] != s[j] {
              if i == 0 {
                assert s[j] == t[j - 1];
              } else {
                assert s[i] == t[i - 1] && s[j] == t[j - 1];
              }
            }
          }
          if Distinct(s) {
            forall i, j | 0 <= i < j < |t| ensures t[i] != t[j] {
              assert t[i] == s[i + 1] && t[j] == s[j + 1];
            }
          }
        }
      }
    }
  }

  /** The listing after os.remove of every file whose name is in doomed, in the order left behind. */
  function Without(files: seq<DicomFile>, doomed: set<string>): (r: seq<DicomFile>)
    ensures forall f :: f in r <==> f in files && f.name !in doomed
  {
    if files == [] then []
    else (if files[0].name in doomed then [] else [files[0]]) + Without(files[1..], doomed)
  }

  /** Dropping the first file of a listing with distinct names leaves distinct names, none of them the first's. */
  lemma DistinctTail(files: seq<DicomFile>)
    requires files != [] && Distinct(FileNames(files))
    ensures Distinct(FileNames(files[1..]))
    ensures files[0].name !in FileNames(files[1..])
  {
    var tail := FileNames(files[1..]);
    forall i, j | 0 <= i < j < |tail| ensures tail[i] != tail[j] {
      assert tail[i] == FileNames(files)[i + 1] && tail[j] == FileNames(files)[j + 1];
    }
  }

  /** Putting a file with a new name in front keeps the names distinct. */
  lemma DistinctCons(f: DicomFile, files: seq<DicomFile>)
    requires Distinct(FileNames(files)) && f.name !in FileNames(files)
    ensures Distinct(FileNames([f] + files))
  {
    var names := FileNames([f] + files);
    forall i, j | 0 <= i < j < |names| ensures names[i] != names[j] {
      if i == 0 {
        assert names[j] == FileNames(files)[j - 1];
      } else {
        assert names[i] == FileNames(files)[i - 1] && names[j] == FileNames(files)[j - 1];
      }
    }
  }

  /** Every name left after the removal was a name of the listing. */
  lemma WithoutNamesFrom(files: seq<DicomFile>, doomed: set<string>, x: string)
    requires x in FileNames(Without(files, doomed))
    ensures x in FileNames(files)
  {
    var r := Without(files, doomed);
    var i :| 0 <= i < |r| && FileNames(r)[i] == x;
    assert r[i] in files;
    var j :| 0 <= j < |files| && files[j] == r[i];
    assert FileNames(files)[j] == x;
  }

  /** Removing files keeps the names distinct. */
  lemma {:induction false} WithoutKeepsNamesDistinct(files: seq<DicomFile>, doomed: set<string>)
    requires Distinct(FileNames(files))
    ensures Distinct(FileNames(Without(files, doomed)))
  {
    if files != [] {
      DistinctTail(files);
      WithoutKeepsNamesDistinct(files[1..], doomed);
      var rest := Without(files[1..], doomed);
      if files[0].name !in doomed {
        assert Without(files, doomed) == [files[0]] + rest;
        if files[0].name in FileNames(rest) {
          WithoutNamesFrom(files[1..], doomed, files[0].name);
        }
        DistinctCons(files[0], rest);
      } else {
        assert Without(files, doomed) == rest;
      }
    }
  }

  /**
   * The truncation of one directory listing with more than n files: the
   * listing left behind, or None when reading an InstanceNumber raises.
   * A directory with at most n files is not even read.
   */
  function TruncateSeries(files: seq<DicomFile>, n: nat): (r: Option<seq<DicomFile>>)
    ensures |files| <= n ==> r == Some(files)
    ensures r.None? <==> |files| > n && exists i :: 0 <= i < |files| && InstanceNumber(files[i]).None?
    ensures r.Some? ==> forall f :: f in r.value ==> f in files
  {
    if |files| <= n then Some(files)
    else match Rank(files)
      case None => None
      case Some(ranked) => Some(Without(files, NameSet(SortByInstance(ranked)[n..])))
  }

  /** Every file of the listing has an integer InstanceNumber. */
  predicate AllNumbered(files: seq<DicomFile>)
  {
    forall i :: 0 <= i < |files| ==> InstanceNumber(files[i]).Some?
  }

  /** The sorted [file, InstanceNumber] list of a listing whose files all have one. */
  function SortedListing(files: seq<DicomFile>): seq<Ranked>
    requires AllNumbered(files)
  {
    SortByInstance(Rank(files).value)
  }

  /** Reordering a list keeps its set of names. */
  lemma PermutationKeepsNames(a: seq<Ranked>, b: seq<Ranked>)
    requires multiset(a) == multiset(b)
    ensures NameSet(a) == NameSet(b)
  {
    forall x | x in Names(a) ensures x in Names(b) {
      var i :| 0 <= i < |a| && Names(a)[i] == x;
      assert a[i] in multiset(b);
      var j :| 0 <= j < |b| && b[j] == a[i];
      assert Names(b)[j] == x;
    }
    forall x | x in Names(b) ensures x in Names(a) {
      var i :| 0 <= i < |b| && Names(b)[i] == x;
      assert b[i] in multiset(a);
      var j :| 0 <= j < |a| && a[j] == b[i];
      assert Names(a)[j] == x;
    }
  }

  /** The sorted list holds exactly one pair per file of the listing. */
  lemma SortedListingHoldsFiles(files: seq<DicomFile>)
    requires AllNumbered(files)
    ensures |SortedListing(files)| == |files|
    ensures forall f :: f in files ==> RankOf(f) in SortedListing(files)
    ensures forall e :: e in SortedListing(files) ==> exists j :: 0 <= j < |files| && e == RankOf(files[j])
  {
    var ranked := Rank(files).value;
    var sorted := SortedListing(files);
    forall e | e in sorted ensures exists j :: 0 <= j < |files| && e == RankOf(files[j]) {
      assert e in multiset(ranked);
      var j :| 0 <= j < |ranked| && ranked[j] == e;
      assert e == RankOf(files[j]);
    }
    forall f | f in files ensures RankOf(f) in sorted {
      var i :| 0 <= i < |files| && files[i] == f;
      assert ranked[i] == RankOf(f);
      assert RankOf(f) in multiset(sorted);
    }
  }

  /** The file an entry of the sorted list stands for. */
  lemma FileOfEntry(files: seq<DicomFile>, p: nat) returns (j: nat)
    requires AllNumbered(files) && p < |SortedListing(files)|
    ensures j < |files| && SortedListing(files)[p] == RankOf(files[j])
  {
    var ranked := Rank(files).value;
    assert SortedListing(files)[p] in multiset(ranked);
    j :| 0 <= j < |ranked| && ranked[j] == SortedListing(files)[p];
  }

  /** Distinct file names give distinct names in the sorted list. */
  lemma SortedListingNamesDistinct(files: seq<DicomFile>)
    requires AllNumbered(files) && Distinct(FileNames(files))
    ensures Distinct(Names(SortedListing(files)))
  {
    var ranked := Rank(files).value;
    var sorted := SortedListing(files);
    assert Names(ranked) == FileNames(files);
    PermutationKeepsNames(ranked, sorted);
    DistinctCardinality(Names(ranked));
    DistinctCardinality(Names(sorted));
  }

  /** With distinct names, a pair's position in the list is unique. */
  lemma PositionUnique(sorted: seq<Ranked>, p: nat, q: nat)
    requires Distinct(Names(sorted)) && p < |sorted| && q < |sorted|
    requires sorted[p] == sorted[q]
    ensures p == q
  {
    assert Names(sorted)[p] == Names(sorted)[q];
  }

  /**
   * In an over-full directory, a file stays exactly when its pair is among the
   * first n of the sorted list, and is removed exactly when its pair comes
   * after position n.
   */
  lemma KeptIffHead(files: seq<DicomFile>, n: nat, f: DicomFile)
    requires |files| > n && AllNumbered(files) && Distinct(FileNames(files)) && f in files
    ensures TruncateSeries(files, n).Some?
    ensures f in TruncateSeries(files, n).value <==> RankOf(f) in SortedListing(files)[..n]
    ensures f !in TruncateSeries(files, n).value <==> RankOf(f) in SortedListing(files)[n..]
  {
    var sorted := SortedListing(files);
    SortedListingHoldsFiles(files);
    SortedListingNamesDistinct(files);
    assert TruncateSeries(files, n).value == Without(files, NameSet(sorted[n..]));
    var p :| 0 <= p < |sorted| && sorted[p] == RankOf(f);
    SplitByPosition(sorted, n, p);
  }

  /** With distinct names, an entry's position alone decides on which side of n it falls. */
  lemma SplitByPosition(sorted: seq<Ranked>, n: nat, p: nat)
    requires Distinct(Names(sorted)) && n <= |sorted| && p < |sorted|
    ensures sorted[p].name in NameSet(sorted[n..]) <==> n <= p
    ensures sorted[p] in sorted[..n] <==> p < n
    ensures sorted[p] in sorted[n..] <==> n <= p
  {
    if p < n {
      assert sorted[..n][p] == sorted[p];
    } else {
      assert sorted[n..][p - n] == sorted[p];
      assert Names(sorted[n..])[p - n] == sorted[p].name;
    }
  }

  /** Every name that stays is the name of one of the first n sorted pairs. */
  lemma KeptNamesInHead(files: seq<DicomFile>, n: nat, x: string)
    requires |files| > n && AllNumbered(files) && Distinct(FileNames(files))
    requires TruncateSeries(files, n).Some? && x in FileNames(TruncateSeries(files, n).value)
    ensures x in NameSet(SortedListing(files)[..n])
  {
    var sorted := SortedListing(files);
    var kept := TruncateSeries(files, n).value;
    var i :| 0 <= i < |kept| && FileNames(kept)[i] == x;
    var f := kept[i];
    KeptIffHead(files, n, f);
    assert RankOf(f) in sorted[..n];
    var p :| 0 <= p < n && sorted[..n][p] == RankOf(f);
    assert Names(sorted[..n])[p] == x;
  }

  /** Every name among the first n sorted pairs stays. */
  lemma HeadNamesKept(files: seq<DicomFile>, n: nat, x: string)
    requires |files| > n && AllNumbered(files) && Distinct(FileNames(files))
    requires x in NameSet(SortedListing(files)[..n])
    ensures TruncateSeries(files, n).Some?
    ensures x in FileNames(TruncateSeries(files, n).value)
  {
    var sorted := SortedListing(files);
    var kept := TruncateSeries(files, n).value;
    var p :| 0 <= p < n && Names(sorted[..n])[p] == x;
    SortedListingHoldsFiles(files);
    var j := FileOfEntry(files, p);
    assert RankOf(files[j]) in sorted[..n] by { assert sorted[..n][p] == sorted[p]; }
    KeptIffHead(files, n, files[j]);
    assert files[j] in kept;
    var i :| 0 <= i < |kept| && kept[i] == files[j];
    assert FileNames(kept)[i] == x;
  }

  /** The names that stay are the names of the first n sorted pairs. */
  lemma KeptNamesAreHeadNames(files: seq<DicomFile>, n: nat)
    requires |files| > n && AllNumbered(files) && Distinct(FileNames(files))
    ensures TruncateSeries(files, n).Some?
    ensures Elems(FileNames(TruncateSeries(files, n).value)) == NameSet(SortedListing(files)[..n])
  {
    forall x | x in FileNames(TruncateSeries(files, n).value)
      ensures x in NameSet(SortedListing(files)[..n])
    {
      KeptNamesInHead(files, n, x);
    }
    forall x | x in NameSet(SortedListing(files)[..n])
      ensures x in FileNames(TruncateSeries(files, n).value)
    {
      HeadNamesKept(files, n, x);
    }
  }

  /** Truncating a directory with more than n files leaves exactly n of them. */
  lemma KeepsExactlyN(files: seq<DicomFile>, n: nat)
    requires |files| > n && AllNumbered(files) && Distinct(FileNames(files))
    ensures TruncateSeries(files, n).Some?
    ensures |TruncateSeries(files, n).value| == n
  {
    var sorted := SortedListing(files);
    var kept := TruncateSeries(files, n).value;
    var head := Names(sorted[..n]);
    SortedListingHoldsFiles(files);
    SortedListingNamesDistinct(files);
    KeptNamesAreHeadNames(files, n);
    WithoutKeepsNamesDistinct(files, NameSet(sorted[n..]));
    assert Distinct(head) by {
      forall i, j | 0 <= i < j < n ensures head[i] != head[j] {
        assert head[i] == Names(sorted)[i] && head[j] == Names(sorted)[j];
      }
    }
    DistinctCardinality(head);
    DistinctCardinality(FileNames(kept));
  }

  /** No kept file has a larger InstanceNumber than a removed one. */
  lemma KeptPrecedeRemoved(files: seq<DicomFile>, n: nat)
    requires |files| > n && AllNumbered(files) && Distinct(FileNames(files))
    ensures TruncateSeries(files, n).Some?
    ensures forall f, g :: f in TruncateSeries(files, n).value && g in files && g !in TruncateSeries(files, n).value ==>
      InstanceNumber(f).value <= InstanceNumber(g).value
  {
    var sorted := SortedListing(files);
    var kept := TruncateSeries(files, n).value;
    assert AllNumbered(files) && |files| > n;
    forall f, g | f in kept && g in files && g !in kept
      ensures InstanceNumber(f).value <= InstanceNumber(g).value
    {
      KeptIffHead(files, n, f);
      KeptIffHead(files, n, g);
      var p :| 0 <= p < n && sorted[..n][p] == RankOf(f);
      var q :| 0 <= q < |sorted[n..]| && sorted[n..][q] == RankOf(g);
      assert sorted[p] == RankOf(f) && sorted[n + q] == RankOf(g);
    }
  }

  /**
   * Ties keep listing order: when a file is kept, every earlier-listed file
   * with the same InstanceNumber is kept as well.
   */
  lemma TiesKeepListingOrder(files: seq<DicomFile>, n: nat, i: nat, j: nat)
    requires |files| > n && AllNumbered(files) && Distinct(FileNames(files))
    requires i < j < |files| && InstanceNumber(files[i]) == InstanceNumber(files[j])
    requires files[j] in TruncateSeries(files, n).value
    ensures files[i] in TruncateSeries(files, n).value
  {
    var ranked := Rank(files).value;
    var sorted := SortedListing(files);
    SortedListingNamesDistinct(files);
    KeptIffHead(files, n, files[i]);
    KeptIffHead(files, n, files[j]);
    var a, b := RankOf(files[i]), RankOf(files[j]);
    assert ranked[i] == a && ranked[j] == b;
    SortIsStable(ranked, a, b);
    var p, q :| 0 <= p < q < |sorted| && sorted[p] == a && sorted[q] == b;
    assert b in sorted[..n];
    var q' :| 0 <= q' < n && sorted[..n][q'] == b;
    PositionUnique(sorted, q, q');
    assert sorted[..n][p] == a;
  }

  /**
   * The loop that reads every file of an over-full directory and collects its
   * [file, int(ds.InstanceNumber)] pair, giving up at the first file whose
   * InstanceNumber cannot be read.
   */
  method ReadInstanceNumbers(files: seq<DicomFile>) returns (r: Option<seq<Ranked>>)
    ensures r == Rank(files)
  {
    var list: seq<Ranked> := [];
    var k := 0;
    while k < |files|
      invariant k <= |files| && |list| == k
      invariant forall i :: 0 <= i < k ==> InstanceNumber(files[i]).Some? && list[i] == RankOf(files[i])
    {
      var number := InstanceNumber(files[k]);
      if number.None? {
        return None;
      }
      list := list + [Ranked(files[k].name, number.value)];
      k := k + 1;
    }
    assert Rank(files).value == list;
    return Some(list);
  }

  /** Truncating the directory goes through: it is small enough or every InstanceNumber reads. */
  predicate Truncatable(d: Dir, n: nat)
  {
    TruncateSeries(d.files, n).Some?
  }

  /** The directory after truncation. */
  function Truncated(d: Dir, n: nat): (r: Dir)
    requires Truncatable(d, n)
    ensures r.path == d.path && |r.files| <= |d.files|
  {
    assert forall f :: f in TruncateSeries(d.files, n).value ==> f in d.files;
    WithoutShrinks(d.files, n);
    Dir(d.path, TruncateSeries(d.files, n).value)
  }

  /** A directory cannot hold two entries with the same name. */
  predicate NamesDistinct(d: Dir)
  {
    Distinct(FileNames(d.files))
  }

  /** Truncation keeps the names of a directory distinct. */
  lemma TruncatedKeepsNamesDistinct(d: Dir, n: nat)
    requires Truncatable(d, n) && NamesDistinct(d)
    ensures NamesDistinct(Truncated(d, n))
  {
    if |d.files| > n {
      WithoutKeepsNamesDistinct(d.files, NameSet(SortedListing(d.files)[n..]));
    }
  }

  /** A truncated directory holds n files, or all of its files when it had no more than n. */
  lemma TruncatedSize(d: Dir, n: nat)
    requires Truncatable(d, n) && NamesDistinct(d)
    ensures |Truncated(d, n).files| == if |d.files| <= n then |d.files| else n
  {
    if |d.files| > n {
      KeepsExactlyN(d.files, n);
    }
  }

  lemma WithoutShrinks(files: seq<DicomFile>, n: nat)
    requires TruncateSeries(files, n).Some?
    ensures |TruncateSeries(files, n).value| <= |files|
  {
    if |files| > n {
      WithoutLength(files, NameSet(SortedListing(files)[n..]));
    }
  }

  lemma {:induction false} WithoutLength(files: seq<DicomFile>, doomed: set<string>)
    ensures |Without(files, doomed)| <= |files|
  {
    if files != [] {
      WithoutLength(files[1..], doomed);
    }
  }

  /** Removing nothing leaves the listing as it is. */
  lemma {:induction false} WithoutNothing(files: seq<DicomFile>)
    ensures Without(files, {}) == files
  {
    if files != [] {
      WithoutNothing(files[1..]);
      assert files == [files[0]] + files[1..];
    }
  }

  /** Removing one more file after a batch is removing the enlarged batch. */
  lemma {:induction false} WithoutOneMore(files: seq<DicomFile>, doomed: set<string>, name: string)
    ensures Without(Without(files, doomed), {name}) == Without(files, doomed + {name})
  {
    if files != [] {
      WithoutOneMore(files[1..], doomed, name);
      var head := if files[0].name in doomed then [] else [files[0]];
      var rest := Without(files[1..], doomed);
      assert Without(files, doomed) == head + rest;
      WithoutAppend(head, rest, {name});
    }
  }

  lemma {:induction false} WithoutAppend(a: seq<DicomFile>, b: seq<DicomFile>, doomed: set<string>)
    ensures Without(a + b, doomed) == Without(a, doomed) + Without(b, doomed)
  {
    if a != [] {
      assert (a + b)[0] == a[0];
      assert (a + b)[1..] == a[1..] + b;
      WithoutAppend(a[1..], b, doomed);
      var head := if a[0].name in doomed then [] else [a[0]];
      assert Without(a + b, doomed) == head + Without(a[1..] + b, doomed);
      assert Without(a, doomed) == head + Without(a[1..], doomed);
    } else {
      assert a + b == b;
    }
  }
}
