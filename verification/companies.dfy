/** The ticker-to-display-name table `company_names`, its lookup with the
    key itself as default, and the inverse table built by the dictionary
    comprehension `{v: k for k, v in company_names.items()}`. A dictionary
    is the sequence of its (key, value) pairs in insertion order. */
module Companies {

  type Dict = seq<(string, string)>

  const CompanyNames: Dict := [("AAPL", "Apple"), ("MSFT", "Microsoft"), ("V", "Visa")]

  predicate HasKey(d: Dict, key: string)
  {
    exists k :: 0 <= k < |d| && d[k].0 == key
  }

  predicate HasValue(d: Dict, value: string)
  {
    exists k :: 0 <= k < |d| && d[k].1 == value
  }

  /** `d.get(key, default)` for a dictionary built from `d`'s pairs in order:
      a later pair for the same key overrides an earlier one. */
  function Get(d: Dict, key: string, default: string): (r: string)
    ensures !HasKey(d, key) ==> r == default
    ensures HasKey(d, key) ==> exists k :: 0 <= k < |d| && d[k] == (key, r)
  {
    if |d| == 0 then default
    else if d[|d| - 1].0 == key then d[|d| - 1].1
    else
      var r := Get(d[..|d| - 1], key, default);
      assert HasKey(d[..|d| - 1], key) ==> HasKey(d, key);
      assert HasKey(d, key) && d[|d| - 1].0 != key ==> HasKey(d[..|d| - 1], key);
      r
  }

  /** The comprehension swapping every pair, in the same order. */
  function Inverse(d: Dict): (r: Dict)
    ensures |r| == |d|
    ensures forall k :: 0 <= k < |d| ==> r[k] == (d[k].1, d[k].0)
    ensures forall v :: HasKey(r, v) <==> HasValue(d, v)
    ensures forall v :: HasValue(r, v) <==> HasKey(d, v)
  {
    seq(|d|, k requires 0 <= k < |d| => (d[k].1, d[k].0))
  }

  /** No two pairs share a key, and no two share a value. */
  predicate Injective(d: Dict)
  {
    forall j, k :: 0 <= j < k < |d| ==> d[j].0 != d[k].0 && d[j].1 != d[k].1
  }

  /** `company_names.get(dir, dir)`: the name shown for a directory. */
  function DisplayName(dir: string): (r: string)
    ensures !HasKey(CompanyNames, dir) ==> r == dir
    ensures HasKey(CompanyNames, dir) ==> HasValue(CompanyNames, r)
    ensures forall k :: 0 <= k < |CompanyNames| && CompanyNames[k].0 == dir ==> r == CompanyNames[k].1
  {
    assert Injective(CompanyNames);
    Get(CompanyNames, dir, dir)
  }

  /** `{v: k ...}.get(company, company)`: the directory searched for a
      shown name. */
  function DirName(company: string): (r: string)
    ensures !HasValue(CompanyNames, company) ==> r == company
    ensures HasValue(CompanyNames, company) ==> HasKey(CompanyNames, r)
    ensures forall k :: 0 <= k < |CompanyNames| && CompanyNames[k].1 == company ==> r == CompanyNames[k].0
  {
    assert Injective(CompanyNames);
    var inv := Inverse(CompanyNames);
    assert HasKey(inv, company) <==> HasValue(CompanyNames, company);
    Get(inv, company, company)
  }

  datatype DirEntry = DirEntry(name: string, isDir: bool)

  /** `get_companies` over the listing of the base directory: the display
      name of every entry that is a directory, in listing order. */
  function GetCompanies(entries: seq<DirEntry>): (r: seq<string>)
    ensures forall c :: c in r <==> exists e :: e in entries && e.isDir && c == DisplayName(e.name)
  {
    if |entries| == 0 then []
    else
      var init := GetCompanies(entries[..|entries| - 1]);
      var e := entries[|entries| - 1];
      assert entries == entries[..|entries| - 1] + [e];
      if e.isDir then init + [DisplayName(e.name)] else init
  }

  /** The list follows the listing: the names for a listing split in two
      are the names for each part, in order. */
  lemma {:induction false} GetCompaniesAppend(a: seq<DirEntry>, b: seq<DirEntry>)
    ensures GetCompanies(a + b) == GetCompanies(a) + GetCompanies(b)
    decreases |b|
  {
    if |b| == 0 {
      assert a + b == a;
    } else {
      var init := b[..|b| - 1];
      assert (a + b)[..|a + b| - 1] == a + init;
      GetCompaniesAppend(a, init);
    }
  }

  /** One entry gives its display name when it is a directory, and nothing
      otherwise. */
  lemma GetCompaniesOne(e: DirEntry)
    ensures GetCompanies([e]) == if e.isDir then [DisplayName(e.name)] else []
  {
  }

  /** Duplicates are kept: a ticker directory and a directory named after
      its display name are both shown under that name. */
  lemma GetCompaniesKeepsDuplicates()
    ensures GetCompanies([DirEntry("AAPL", true), DirEntry("Apple", true)]) == ["Apple", "Apple"]
  {
    var aapl, apple := DirEntry("AAPL", true), DirEntry("Apple", true);
    assert CompanyNames[0].0 == "AAPL";
    assert DisplayName("AAPL") == "Apple";
    assert !HasKey(CompanyNames, "Apple");
    GetCompaniesOne(aapl);
    GetCompaniesOne(apple);
    GetCompaniesAppend([aapl], [apple]);
    assert [aapl] + [apple] == [aapl, apple];
  }

  // ---------------------------------------------------------------------
  // The inverse table undoes the table

  /** In a table without repeated keys, the lookup of a key finds the value
      of the pair holding it. */
  lemma {:induction false} GetFindsPair(d: Dict, k: int, default: string)
    requires Injective(d)
    requires 0 <= k < |d|
    ensures Get(d, d[k].0, default) == d[k].1
  {
    if k < |d| - 1 {
      GetFindsPair(d[..|d| - 1], k, default);
    }
  }

  /** For an injective table, looking a key's value up in the inverse table
      gives the key back. */
  lemma InverseUndoes(d: Dict, key: string, default: string)
    requires Injective(d)
    requires HasKey(d, key)
    ensures Get(Inverse(d), Get(d, key, default), default) == key
  {
    var k :| 0 <= k < |d| && d[k].0 == key;
    GetFindsPair(d, k, default);
    assert Injective(Inverse(d));
    GetFindsPair(Inverse(d), k, default);
  }

  /** A name that is no value of the table maps to itself. */
  lemma AbsentNameMapsToItself(d: Dict, name: string)
    requires !HasValue(d, name)
    ensures Get(Inverse(d), name, name) == name
  {
  }

  /** Every ticker comes back from its display name. */
  lemma TickerRoundTrip(ticker: string)
    requires HasKey(CompanyNames, ticker)
    ensures DirName(DisplayName(ticker)) == ticker
  {
    InverseUndoes(CompanyNames, ticker, DisplayName(ticker));
  }

  /** A listed directory is found again from the name shown for it exactly
      when it is a ticker or is not itself one of the display names (a
      directory literally named "Apple" is shown as "Apple" but looked up
      as "AAPL"). */
  lemma ListedDirectoryRoundTrip(dir: string)
    ensures DirName(DisplayName(dir)) == dir <==> HasKey(CompanyNames, dir) || !HasValue(CompanyNames, dir)
  {
    if HasKey(CompanyNames, dir) {
      TickerRoundTrip(dir);
    } else if HasValue(CompanyNames, dir) {
      var k :| 0 <= k < |CompanyNames| && CompanyNames[k].1 == dir;
      assert Injective(Inverse(CompanyNames));
      GetFindsPair(Inverse(CompanyNames), k, dir);
      assert CompanyNames[k].0 != dir;
    } else {
      AbsentNameMapsToItself(CompanyNames, dir);
    }
  }
}
