/** The year heuristics of `get_years_for_company` and the path test of
    `get_cleaned_data_path`. Filing folders are named like accession numbers,
    `<cik>-<YY>-<sequence>`; the regular expression `-([0-9]{2})-[0-9]+$`
    picks `YY`, a cutoff at "30" turns it into a four-digit year, and the
    years are deduplicated and sorted newest first. The file system is a
    parameter: the listing of the company's `10-K` directory (with the
    entries of each folder) and the walk of that directory. */
module FilingYears {
  import opened Wrappers
  import opened Strings
  import Companies

  const BaseDir := "sec_filings_new/sec-edgar-filings"
  const CleanedFile := "cleaned_data.txt"

  // ---------------------------------------------------------------------
  // Paths

  /** `os.path.join(a, b)` on POSIX: an absolute `b` replaces `a`, and a
      separator is inserted only when `a` is non-empty and does not already
      end with one. */
  function PathJoin(a: string, b: string): (r: string)
    ensures |b| <= |r| <= |a| + 1 + |b|
    ensures a == "" ==> r == b
  {
    if |b| > 0 && b[0] == '/' then b
    else if a == "" || a[|a| - 1] == '/' then a + b
    else a + "/" + b
  }

  /** A joined path ends with its last component. */
  lemma PathJoinEndsWith(a: string, b: string)
    ensures |b| <= |PathJoin(a, b)| && PathJoin(a, b)[|PathJoin(a, b)| - |b|..] == b
  {
  }

  /** The `10-K` directory searched for a shown company name. */
  function CompanyDir(company: string): string
  {
    PathJoin(PathJoin(BaseDir, Companies.DirName(company)), "10-K")
  }

  /** The display name of a ticker leads back to that ticker's `10-K`
      directory under the base directory. */
  lemma TickerCompanyDir(ticker: string)
    requires Companies.HasKey(Companies.CompanyNames, ticker)
    ensures CompanyDir(Companies.DisplayName(ticker)) == BaseDir + "/" + ticker + "/10-K"
  {
    Companies.TickerRoundTrip(ticker);
    assert ticker == "AAPL" || ticker == "MSFT" || ticker == "V";
  }

  // ---------------------------------------------------------------------
  // Folder name to year

  /** The text `$` anchors to: Python's `$` also matches just before one
      final newline. */
  function Anchored(folder: string): (r: string)
    ensures r <= folder && |folder| - 1 <= |r|
  {
    if |folder| > 0 && folder[|folder| - 1] == '\n' then folder[..|folder| - 1] else folder
  }

  /** The regular expression `-([0-9]{2})-[0-9]+` matches `body` at `p` and
      runs to its end. */
  predicate RegexMatchAt(body: string, p: int)
  {
    && 0 <= p && p + 5 <= |body|
    && body[p] == '-' && IsDigit(body[p + 1]) && IsDigit(body[p + 2]) && body[p + 3] == '-'
    && forall k :: p + 4 <= k < |body| ==> IsDigit(body[k])
  }

  /** Length of the run of digits ending `s`. */
  function TrailingDigits(s: string): (n: nat)
    ensures n <= |s|
    ensures forall k :: |s| - n <= k < |s| ==> IsDigit(s[k])
    ensures n < |s| ==> !IsDigit(s[|s| - n - 1])
  {
    if |s| == 0 || !IsDigit(s[|s| - 1]) then 0 else TrailingDigits(s[..|s| - 1]) + 1
  }

  /** The captured group `YY`, when the folder name matches. */
  function ParseYY(folder: string): (r: Option<string>)
    ensures r.Some? ==> |r.value| == 2 && IsDigit(r.value[0]) && IsDigit(r.value[1])
  {
    var body := Anchored(folder);
    var n := TrailingDigits(body);
    var q := |body| - n;
    if n >= 1 && q >= 4 && body[q - 1] == '-' && IsDigit(body[q - 2]) && IsDigit(body[q - 3]) && body[q - 4] == '-'
    then Some(body[q - 3..q - 1])
    else None
  }

  /** `"20" + yy if yy < "30" else "19" + yy`, with Python's string order. */
  function CenturyYear(yy: string): (r: string)
    ensures |r| == |yy| + 2 && r[2..] == yy
    ensures r[..2] == "20" || r[..2] == "19"
    ensures |yy| == 2 && IsDigit(yy[0]) && IsDigit(yy[1]) ==> (r[..2] == "20" <==> yy[0] < '3')
  {
    assert |yy| == 2 && IsDigit(yy[0]) && IsDigit(yy[1]) ==> (StrLess(yy, "30") <==> yy[0] < '3') by {
      if |yy| == 2 && IsDigit(yy[0]) && IsDigit(yy[1]) {
        var thirty: string := "30";
        assert thirty[1..] == "0";
        if yy[0] == '3' {
          assert StrLess(yy, thirty) == StrLess(yy[1..], "0");
          assert yy[1..][1..] == [];
          var zero: string := "0";
          assert zero[1..] == [];
          assert !StrLess(yy[1..], "0");
        }
      }
    }
    if StrLess(yy, "30") then "20" + yy else "19" + yy
  }

  /** The year a folder name yields, if any. */
  function FolderYear(folder: string): (r: Option<string>)
    ensures r.Some? <==> ParseYY(folder).Some?
    ensures r.Some? ==> |r.value| == 4 && r.value[2..] == ParseYY(folder).value
  {
    match ParseYY(folder)
    case None => None
    case Some(yy) => Some(CenturyYear(yy))
  }

  function DigitValue(c: char): int
  {
    c as int - '0' as int
  }

  /** The number a four-character digit string denotes. */
  function YearValue(y: string): int
    requires |y| == 4
  {
    1000 * DigitValue(y[0]) + 100 * DigitValue(y[1]) + 10 * DigitValue(y[2]) + DigitValue(y[3])
  }

  /** Python's `s[-2:]`: the last two characters, or all of a shorter
      string. */
  function LastTwo(s: string): (r: string)
    ensures |s| >= 2 ==> |r| == 2 && s == s[..|s| - 2] + r
    ensures |s| < 2 ==> r == s
  {
    if |s| >= 2 then s[|s| - 2..] else s
  }

  /** The substring `get_cleaned_data_path` looks for: `'-' + year[-2:] + '-'`. */
  function YearNeedle(year: string): (r: string)
    ensures |r| == |LastTwo(year)| + 2 && r[0] == '-' && r[|r| - 1] == '-'
    ensures |year| >= 2 ==> r[1..3] == year[|year| - 2..]
    ensures forall folder :: FolderYear(folder) == Some(year) ==> r == "-" + ParseYY(folder).value + "-"
  {
    "-" + LastTwo(year) + "-"
  }

  // ---------------------------------------------------------------------
  // The regular expression, characterised

  lemma TrailingDigitsExact(s: string, m: nat)
    requires m < |s| && !IsDigit(s[|s| - m - 1])
    requires forall k :: |s| - m <= k < |s| ==> IsDigit(s[k])
    ensures TrailingDigits(s) == m
  {
  }

  /** A folder yields a `YY` exactly when the regular expression matches,
      and the `YY` is the two digits after the match's first dash. */
  lemma ParseYYIsRegex(folder: string, yy: string)
    ensures ParseYY(folder) == Some(yy) <==>
            exists p :: RegexMatchAt(Anchored(folder), p) && yy == Anchored(folder)[p + 1..p + 3]
  {
    var body := Anchored(folder);
    var n := TrailingDigits(body);
    var q := |body| - n;
    if ParseYY(folder) == Some(yy) {
      assert RegexMatchAt(body, q - 4);
    }
    if p :| RegexMatchAt(body, p) && yy == body[p + 1..p + 3] {
      TrailingDigitsExact(body, |body| - p - 4);
    }
  }

  /** A matched folder's year lies in 1930..2029, is four digits, and ends
      with the captured `YY`. */
  lemma FolderYearRange(folder: string)
    requires FolderYear(folder).Some?
    ensures var y := FolderYear(folder).value;
            && |y| == 4 && (forall k :: 0 <= k < 4 ==> IsDigit(y[k]))
            && 1930 <= YearValue(y) <= 2029
            && LastTwo(y) == ParseYY(folder).value
  {
    var yy := ParseYY(folder).value;
    assert |yy| == 2 && IsDigit(yy[0]) && IsDigit(yy[1]);
  }

  /** The year's needle is a substring of the folder it came from, so the
      path test of `get_cleaned_data_path` accepts that folder. */
  lemma FolderContainsNeedle(folder: string)
    requires FolderYear(folder).Some?
    ensures Contains(folder, YearNeedle(FolderYear(folder).value))
  {
    FolderYearRange(folder);
    var y := FolderYear(folder).value;
    var body := Anchored(folder);
    var n := TrailingDigits(body);
    var q := |body| - n;
    assert folder[q - 4..q] == YearNeedle(y);
    assert OccursAt(folder, YearNeedle(y), q - 4);
    ContainsIff(folder, YearNeedle(y));
  }

  // ---------------------------------------------------------------------
  // Listing the years of a company

  /** A folder of the company's `10-K` directory with the names it holds. */
  datatype Folder = Folder(name: string, entries: seq<string>)

  predicate HasCleanedData(f: Folder)
  {
    CleanedFile in f.entries
  }

  /** Some listed folder with cleaned data yields `year`. */
  predicate ListedYear(folders: seq<Folder>, year: string)
  {
    exists f :: f in folders && HasCleanedData(f) && FolderYear(f.name) == Some(year)
  }

  /** The years the loop appends, in listing order, duplicates kept. */
  function CollectYears(folders: seq<Folder>): (r: seq<string>)
    ensures forall y :: y in r <==> ListedYear(folders, y)
  {
    if |folders| == 0 then []
    else
      var init := CollectYears(folders[..|folders| - 1]);
      var f := folders[|folders| - 1];
      assert folders == folders[..|folders| - 1] + [f];
      if HasCleanedData(f) && FolderYear(f.name).Some? then init + [FolderYear(f.name).value] else init
  }

  /** Newest first under Python's string order, hence without repeats. */
  predicate StrictlyDescending(s: seq<string>)
  {
    forall a, b :: 0 <= a < b < |s| ==> StrLess(s[b], s[a])
  }

  /** Adds `x` to a strictly descending list, keeping it so. */
  function InsertDescending(x: string, s: seq<string>): (r: seq<string>)
    requires StrictlyDescending(s)
    ensures StrictlyDescending(r)
    ensures forall y :: y in r <==> y == x || y in s
  {
    if |s| == 0 then [x]
    else if x == s[0] then s
    else if StrLess(s[0], x) then
      assert forall b :: 0 <= b < |s| ==> StrLess(s[b], x) by {
        forall b | 0 < b < |s| {
          StrLessTransitive(s[b], s[0], x);
        }
      }
      [x] + s
    else
      StrLessTotal(x, s[0]);
      var tail := InsertDescending(x, s[1..]);
      assert forall y :: y in tail ==> StrLess(y, s[0]) by {
        forall y | y in tail
          ensures StrLess(y, s[0])
        {
          if y != x {
            var k :| 0 <= k < |s[1..]| && s[1..][k] == y;
            assert s[k + 1] == y;
          }
        }
      }
      assert forall b :: 0 <= b < |tail| ==> StrLess(tail[b], s[0]) by {
        forall b | 0 <= b < |tail|
          ensures StrLess(tail[b], s[0])
        {
          assert tail[b] in tail;
        }
      }
      assert s == [s[0]] + s[1..];
      [s[0]] + tail
  }

  /** `sorted(set(xs), reverse=True)`. */
  function SortedUniqueDescending(xs: seq<string>): (r: seq<string>)
    ensures StrictlyDescending(r)
    ensures forall y :: y in r <==> y in xs
  {
    if |xs| == 0 then []
    else
      assert xs == xs[..|xs| - 1] + [xs[|xs| - 1]];
      InsertDescending(xs[|xs| - 1], SortedUniqueDescending(xs[..|xs| - 1]))
  }

  /** `get_years_for_company` for the listing of the company's `10-K`
      directory (`None` when it does not exist): every year some folder with
      cleaned data yields, each once, newest first. */
  function YearsForCompany(listing: Option<seq<Folder>>): (r: seq<string>)
    ensures StrictlyDescending(r)
    ensures listing.None? ==> r == []
    ensures listing.Some? ==> forall y :: y in r <==> ListedYear(listing.value, y)
  {
    match listing
    case None => []
    case Some(folders) => SortedUniqueDescending(CollectYears(folders))
  }

  /** A strictly descending list holds no value twice. */
  lemma DescendingHasNoDuplicates(s: seq<string>)
    requires StrictlyDescending(s)
    ensures forall a, b :: 0 <= a < b < |s| ==> s[a] != s[b]
  {
    forall a, b | 0 <= a < b < |s|
      ensures s[a] != s[b]
    {
      StrLessIrreflexive(s[a]);
    }
  }

  /** Two strictly descending lists with the same elements are equal, so the
      list above is the one `sorted(set(...), reverse=True)` returns. */
  lemma {:induction false} DescendingIsUnique(a: seq<string>, b: seq<string>)
    requires StrictlyDescending(a) && StrictlyDescending(b)
    requires forall y :: y in a <==> y in b
    ensures a == b
  {
    assert |a| > 0 ==> a[0] in a;
    assert |b| > 0 ==> b[0] in b;
    if |a| > 0 && |b| > 0 {
      if a[0] != b[0] {
        assert b[0] in a && a[0] in b;
        var i :| 0 <= i < |a| && a[i] == b[0];
        var j :| 0 <= j < |b| && b[j] == a[0];
        assert i > 0 && j > 0;
        StrLessTransitive(a[0], b[0], a[0]);
        StrLessIrreflexive(a[0]);
      }
      forall y
        ensures y in a[1..] <==> y in b[1..]
      {
        if y in a[1..] {
          var i :| 0 <= i < |a[1..]| && a[1..][i] == y;
          assert StrLess(y, a[0]);
          StrLessIrreflexive(y);
          assert y in b;
        }
        if y in b[1..] {
          var i :| 0 <= i < |b[1..]| && b[1..][i] == y;
          assert StrLess(y, b[0]);
          StrLessIrreflexive(y);
          assert y in a;
        }
      }
      DescendingIsUnique(a[1..], b[1..]);
      assert a == [a[0]] + a[1..] && b == [b[0]] + b[1..];
    }
  }

  // ---------------------------------------------------------------------
  // Finding the cleaned data of a year again

  /** One step of `os.walk`: a directory and the files in it. */
  datatype WalkEntry = WalkEntry(root: string, files: seq<string>)

  /** The test of `get_cleaned_data_path`'s loop. */
  predicate Accepts(e: WalkEntry, year: string)
  {
    CleanedFile in e.files && Contains(e.root, YearNeedle(year))
  }

  /** `get_cleaned_data_path` over the walk of the company's directory: the
      cleaned file of the first accepted directory, or `None`. */
  function CleanedDataPath(walk: seq<WalkEntry>, year: string): (r: Option<string>)
    ensures r.None? <==> forall k :: 0 <= k < |walk| ==> !Accepts(walk[k], year)
    ensures r.Some? ==> exists k :: && 0 <= k < |walk| && Accepts(walk[k], year)
                                    && r.value == PathJoin(walk[k].root, CleanedFile)
                                    && forall j :: 0 <= j < k ==> !Accepts(walk[j], year)
  {
    if |walk| == 0 then None
    else if Accepts(walk[0], year) then Some(PathJoin(walk[0].root, CleanedFile))
    else
      var r := CleanedDataPath(walk[1..], year);
      assert forall k :: 1 <= k < |walk| ==> walk[k] == walk[1..][k - 1];
      r
  }

  /** A year is found again from the folder it came from: when the walk
      visits that folder, under any parent directory, and sees the cleaned
      file among its files, `get_cleaned_data_path` returns a path for the
      year. */
  lemma ListedYearIsFound(companyDir: string, f: Folder, walk: seq<WalkEntry>, e: WalkEntry)
    requires FolderYear(f.name).Some?
    requires e in walk && e.root == PathJoin(companyDir, f.name) && CleanedFile in e.files
    ensures CleanedDataPath(walk, FolderYear(f.name).value).Some?
  {
    var year := FolderYear(f.name).value;
    FolderContainsNeedle(f.name);
    PathJoinEndsWith(companyDir, f.name);
    var prefix := e.root[..|e.root| - |f.name|];
    assert e.root == prefix + f.name;
    ContainsInSuffix(prefix, f.name, YearNeedle(year));
    assert Accepts(e, year);
  }

  /** The walk visits every listed folder that holds the cleaned file and
      sees the file there. */
  predicate WalkCovers(companyDir: string, folders: seq<Folder>, walk: seq<WalkEntry>)
  {
    forall f :: f in folders && HasCleanedData(f) ==>
      exists k :: 0 <= k < |walk| && walk[k].root == PathJoin(companyDir, f.name) && CleanedFile in walk[k].files
  }

  /** Every year `get_years_for_company` lists is found again by
      `get_cleaned_data_path`, when the walk covers the listed folders. */
  lemma ListedYearsAreFound(companyDir: string, folders: seq<Folder>, walk: seq<WalkEntry>)
    requires WalkCovers(companyDir, folders, walk)
    ensures forall year :: year in YearsForCompany(Some(folders)) ==> CleanedDataPath(walk, year).Some?
  {
    forall year | year in YearsForCompany(Some(folders))
      ensures CleanedDataPath(walk, year).Some?
    {
      var f :| f in folders && HasCleanedData(f) && FolderYear(f.name) == Some(year);
      var k :| 0 <= k < |walk| && walk[k].root == PathJoin(companyDir, f.name) && CleanedFile in walk[k].files;
      ListedYearIsFound(companyDir, f, walk, walk[k]);
    }
  }
}
