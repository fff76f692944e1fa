/** `utils.py`: locating a brand's broadcast logs and reading the date in
    each log's file name. The file system is a parameter: `isDir` answers
    `os.path.isdir` and `listDir` gives `os.listdir` in its listing order. */
module Brands {
  import opened Wrappers
  import opened Text

  /** The pinyin key of each brand and the directory its logs live in. */
  const BrandMapping: map<string, string> := map[
    "songshu" := "三只松鼠",
    "jingzao" := "京造",
    "baicao" := "百草味",
    "liangpin" := "良品铺子"]

  /** `os.path.join(a, b)` on POSIX: an absolute `b` replaces `a`; otherwise
      the two are joined by one separator unless `a` is empty or already
      ends with one. */
  function PathJoin(a: string, b: string): (r: string)
    ensures EndsWith(r, b)
    ensures !StartsWith(b, "/") ==> StartsWith(r, a)
    ensures !StartsWith(b, "/") && a != "" && !EndsWith(a, "/") ==> r == a + "/" + b
    ensures !StartsWith(b, "/") ==> |r| == |a| + |b| + (if a == "" || EndsWith(a, "/") then 0 else 1)
    ensures StartsWith(b, "/") ==> r == b
  {
    if StartsWith(b, "/") then b
    else if a == "" || EndsWith(a, "/") then a + b
    else a + "/" + b
  }

  /** The names of a listing that end in `.csv`, in listing order. */
  function CsvFiles(names: seq<string>): (r: seq<string>)
    ensures |r| <= |names|
    ensures forall f :: f in r <==> f in names && EndsWith(f, ".csv")
  {
    if |names| == 0 then []
    else
      var init := names[..|names| - 1];
      var f := names[|names| - 1];
      assert names == init + [f];
      CsvFiles(init) + (if EndsWith(f, ".csv") then [f] else [])
  }

  /** A one-name listing is kept exactly when the name ends in `.csv`. */
  lemma CsvFilesSingle(f: string)
    ensures CsvFiles([f]) == (if EndsWith(f, ".csv") then [f] else [])
  {
    assert [f][..0] == [];
  }

  lemma CsvFilesSnoc(names: seq<string>, f: string)
    ensures CsvFiles(names + [f]) == CsvFiles(names) + (if EndsWith(f, ".csv") then [f] else [])
  {
    assert (names + [f])[..|names|] == names;
  }

  /** Two listings one after the other keep the `.csv` names of each in turn:
      with `CsvFilesSingle` this pins the result to the listing order. */
  lemma {:induction false} CsvFilesAppend(a: seq<string>, b: seq<string>)
    ensures CsvFiles(a + b) == CsvFiles(a) + CsvFiles(b)
    decreases |b|
  {
    if |b| == 0 {
      assert a + b == a;
    } else {
      var b0 := b[..|b| - 1];
      var x := b[|b| - 1];
      var tail := if EndsWith(x, ".csv") then [x] else [];
      assert b == b0 + [x];
      assert a + b == (a + b0) + [x];
      calc {
        CsvFiles(a + b);
        { CsvFilesSnoc(a + b0, x); }
        CsvFiles(a + b0) + tail;
        { CsvFilesAppend(a, b0); }
        (CsvFiles(a) + CsvFiles(b0)) + tail;
        CsvFiles(a) + (CsvFiles(b0) + tail);
        { CsvFilesSnoc(b0, x); }
        CsvFiles(a) + CsvFiles(b);
      }
    }
  }

  /** `get_brand_paths`: for a known brand whose directory exists, a one-entry
      map from the brand's directory name to the paths of its `.csv` files;
      None otherwise. */
  function GetBrandPaths(brandsDir: string, key: string, isDir: string -> bool, listDir: string -> seq<string>)
    : (r: Option<map<string, seq<string>>>)
    ensures r.None? <==> key !in BrandMapping || !isDir(PathJoin(brandsDir, BrandMapping[key]))
    ensures r.Some? ==> r.value.Keys == {BrandMapping[key]}
    ensures r.Some? ==>
      var dir := PathJoin(brandsDir, BrandMapping[key]);
      var csv := CsvFiles(listDir(dir));
      var paths := r.value[BrandMapping[key]];
      |paths| == |csv| && forall i :: 0 <= i < |csv| ==> paths[i] == PathJoin(dir, csv[i])
  {
    if key !in BrandMapping then None
    else
      var brand := BrandMapping[key];
      var dir := PathJoin(brandsDir, brand);
      if !isDir(dir) then None
      else
        var csv := CsvFiles(listDir(dir));
        Some(map[brand := seq(|csv|, i requires 0 <= i < |csv| => PathJoin(dir, csv[i]))])
  }

  // ---- extract_date ---------------------------------------------------------

  /** A date as the file names carry it: exactly eight ASCII digits. */
  predicate IsDate(d: string)
  {
    |d| == 8 && IsDigits(d)
  }

  /** Eight ASCII digits start at position `i` of `p` (`\d{8}`). */
  predicate DateAt(p: string, i: nat)
  {
    i + 8 <= |p| && IsDate(p[i..i + 8])
  }

  /** The leftmost position at or after `from` where a date starts. */
  function FirstDateFrom(p: string, from: nat): (r: Option<nat>)
    ensures r.None? <==> forall i: nat :: from <= i ==> !DateAt(p, i)
    ensures r.Some? ==> from <= r.value && DateAt(p, r.value)
    ensures r.Some? ==> forall i: nat :: from <= i < r.value ==> !DateAt(p, i)
    decreases |p| - from
  {
    if from + 8 > |p| then None
    else if DateAt(p, from) then Some(from)
    else FirstDateFrom(p, from + 1)
  }

  /** `re.search(r'\d{8}', p).group()`: the leftmost run of eight digits. */
  function FirstDate(p: string): (r: Option<string>)
    ensures r.None? <==> forall i: nat :: !DateAt(p, i)
    ensures r.Some? ==> IsDate(r.value)
    ensures r.Some? ==> exists i: nat :: DateAt(p, i) && r.value == p[i..i + 8] && forall j: nat :: j < i ==> !DateAt(p, j)
  {
    match FirstDateFrom(p, 0)
    case None => None
    case Some(i) => Some(p[i..i + 8])
  }

  /** The dates of a list of paths, in order; a path without one contributes
      nothing. */
  function DatesOf(paths: seq<string>): (r: seq<string>)
    ensures |r| <= |paths|
    ensures forall i :: 0 <= i < |r| ==> IsDate(r[i])
  {
    if |paths| == 0 then []
    else
      DatesOf(paths[..|paths| - 1]) + match FirstDate(paths[|paths| - 1]) case None => [] case Some(d) => [d]
  }

  lemma DatesOfSingle(p: string)
    ensures DatesOf([p]) == match FirstDate(p) case None => [] case Some(d) => [d]
  {
    assert [p][..0] == [];
  }

  /** Paths are read independently and in order. Together with
      `DatesOfSingle` this determines `DatesOf` completely. */
  lemma {:induction false} DatesOfAppend(a: seq<string>, b: seq<string>)
    ensures DatesOf(a + b) == DatesOf(a) + DatesOf(b)
    decreases |b|
  {
    if |b| == 0 {
      assert a + b == a;
    } else {
      var b0 := b[..|b| - 1];
      assert (a + b)[..|a + b| - 1] == a + b0;
      assert (a + b)[|a + b| - 1] == b[|b| - 1];
      DatesOfAppend(a, b0);
    }
  }

  /** Total number of paths over all entries. */
  function PathCount(items: seq<(string, seq<string>)>): nat
  {
    if |items| == 0 then 0 else PathCount(items[..|items| - 1]) + |items[|items| - 1].1|
  }

  /** `extract_date`: the dates of every entry's paths, entry by entry (a
      dict iterates in insertion order, so the entries are a sequence). Only
      dates come out, and no more than there are paths. */
  function ExtractDates(items: seq<(string, seq<string>)>): (r: seq<string>)
    ensures |r| <= PathCount(items)
    ensures forall i :: 0 <= i < |r| ==> IsDate(r[i])
  {
    if |items| == 0 then []
    else ExtractDates(items[..|items| - 1]) + DatesOf(items[|items| - 1].1)
  }

  /** The entries' dates in order: extracting from two runs of entries is
      extracting from each in turn. */
  lemma {:induction false} ExtractDatesAppend(a: seq<(string, seq<string>)>, b: seq<(string, seq<string>)>)
    ensures ExtractDates(a + b) == ExtractDates(a) + ExtractDates(b)
    decreases |b|
  {
    if |b| == 0 {
      assert a + b == a;
    } else {
      var b0 := b[..|b| - 1];
      var x := b[|b| - 1];
      assert b == b0 + [x];
      assert a + b == (a + b0) + [x];
      calc {
        ExtractDates(a + b);
        { ExtractDatesSnoc(a + b0, x); }
        ExtractDates(a + b0) + DatesOf(x.1);
        { ExtractDatesAppend(a, b0); }
        (ExtractDates(a) + ExtractDates(b0)) + DatesOf(x.1);
        ExtractDates(a) + (ExtractDates(b0) + DatesOf(x.1));
        { ExtractDatesSnoc(b0, x); }
        ExtractDates(a) + ExtractDates(b);
      }
    }
  }

  lemma ExtractDatesSnoc(items: seq<(string, seq<string>)>, x: (string, seq<string>))
    ensures ExtractDates(items + [x]) == ExtractDates(items) + DatesOf(x.1)
  {
    assert (items + [x])[..|items|] == items;
  }

  /** For the one-entry result of `GetBrandPaths` the dates are those of its
      paths. */
  lemma ExtractDatesSingle(key: string, paths: seq<string>)
    ensures ExtractDates([(key, paths)]) == DatesOf(paths)
  {
    assert [(key, paths)][..0] == [];
  }
}
