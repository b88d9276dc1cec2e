/**
 * The gr-site job (`gr_site_job.py`): crawled rows of the government
 * resolutions site, already normalised into `CrawledRecord`s, are reconciled
 * with the ledger.  The daily mode walks each department's listing pages in
 * order and collects the codes the ledger does not know, stopping at the
 * first page that holds a known one; the monthly mode keeps the most
 * complete row per code and inserts or touches each.  The ledger is the
 * split `InfoStore`; the clock is a parameter.
 */
module GrSite {
  import opened Py
  import opened Order
  import opened Dates
  import opened Codes
  import opened LedgerEngine
  import opened Infos

  // ----------------------------------------------------------- the parsers

  /** The first of `%d-%m-%Y`, `%d/%m/%Y` and `%Y-%m-%d` that `strptime` accepts. */
  function GrDateOf(text: string): (r: Option<Date>)
    ensures r.Some? ==> ValidDate(r.value)
  {
    match StrptimeDmy(text, '-')
    case Some(d) => Some(d)
    case None =>
      match StrptimeDmy(text, '/')
      case Some(d) => Some(d)
      case None => StrptimeYmd(text, '-')
  }

  /** `parse_gr_date`: the cleaned text read by the first format that fits, as `isoformat()`, else `""`. */
  function ParseGrDate(value: Value, isFormat: char -> bool): (r: string)
    ensures r == "" || FromIsoFormat(r).Some?
  {
    var text := CleanText(value, isFormat);
    if text == [] then ""
    else
      match GrDateOf(text)
      case None => ""
      case Some(d) =>
        FromIsoFormatOfIsoFormat(d);
        IsoFormat(d)
  }

  /** A text of digits and one kind of date separator comes out of `clean_text` whole. */
  lemma CleanDateText(t: string, sep: char, isFormat: char -> bool)
    requires AsciiNotFormat(isFormat) && (sep == '-' || sep == '/')
    requires forall i :: 0 <= i < |t| ==> IsDigit(t[i]) || t[i] == sep
    ensures CleanText(Str(t), isFormat) == t
  {
    CleanTextOfPlain(t, isFormat);
  }

  /** The text of `a + [sep] + b + [sep] + c`, for three digit strings, is digits and `sep`. */
  lemma DateTextChars(a: string, b: string, c: string, sep: char)
    requires AllDigits(a) && AllDigits(b) && AllDigits(c)
    ensures var t := a + [sep] + b + [sep] + c; forall i :: 0 <= i < |t| ==> IsDigit(t[i]) || t[i] == sep
  {
    var t := a + [sep] + b + [sep] + c;
    forall i | 0 <= i < |t| ensures IsDigit(t[i]) || t[i] == sep {
      if i < |a| { assert t[i] == a[i]; }
      else if |a| < i <= |a| + |b| { assert t[i] == b[i - |a| - 1]; }
      else if |a| + |b| + 1 < i { assert t[i] == c[i - |a| - |b| - 2]; }
    }
  }

  /** An ISO date reads back as itself: neither day-first format fits it. */
  lemma ParseGrDateOfIso(d: Date, isFormat: char -> bool)
    requires ValidDate(d) && AsciiNotFormat(isFormat)
    ensures ParseGrDate(Str(IsoFormat(d)), isFormat) == IsoFormat(d)
  {
    var t := IsoFormat(d);
    var y, m, dd := Pad4(d.year), Pad2(d.month), Pad2(d.day);
    assert t == y + ['-'] + m + ['-'] + dd;
    DateTextChars(y, m, dd, '-');
    CleanDateText(t, '-', isFormat);
    Split3Of(y, m, dd, '-');
    assert StrptimeDmy(t, '-').None?;
    assert StrptimeDmy(t, '/').None?;
    StrptimeYmdOfIsoFormat(d);
  }

  /** `strptime` with a day-first format reads a zero-padded day-first date. */
  lemma StrptimeDmyOfDate(d: Date, sep: char)
    requires ValidDate(d) && (sep == '-' || sep == '/')
    ensures StrptimeDmy(Pad2(d.day) + [sep] + Pad2(d.month) + [sep] + Pad4(d.year), sep) == Some(d)
  {
    Split3Of(Pad2(d.day), Pad2(d.month), Pad4(d.year), sep);
    MonthFieldOfPad2(d.month);
    DayFieldOfPad2(d.day);
  }

  /** The formats tried in turn: a day-first date with either separator is read by its own format. */
  lemma GrDateOfDayFirst(d: Date, sep: char)
    requires ValidDate(d) && (sep == '-' || sep == '/')
    ensures GrDateOf(Pad2(d.day) + [sep] + Pad2(d.month) + [sep] + Pad4(d.year)) == Some(d)
  {
    var t := Pad2(d.day) + [sep] + Pad2(d.month) + [sep] + Pad4(d.year);
    StrptimeDmyOfDate(d, sep);
    if sep == '/' {
      DateTextChars(Pad2(d.day), Pad2(d.month), Pad4(d.year), sep);
      assert '-' !in t;
      assert Split3(t, '-').None?;
    }
  }

  /** A day-first date with either separator reads as that date. */
  lemma ParseGrDateOfDayFirst(d: Date, sep: char, isFormat: char -> bool)
    requires ValidDate(d) && AsciiNotFormat(isFormat) && (sep == '-' || sep == '/')
    ensures ParseGrDate(Str(Pad2(d.day) + [sep] + Pad2(d.month) + [sep] + Pad4(d.year)), isFormat) == IsoFormat(d)
  {
    var t := Pad2(d.day) + [sep] + Pad2(d.month) + [sep] + Pad4(d.year);
    DateTextChars(Pad2(d.day), Pad2(d.month), Pad4(d.year), sep);
    CleanDateText(t, sep, isFormat);
    GrDateOfDayFirst(d, sep);
  }

  /** `10**9`, the page index of a file name without a `-N.html` tail. */
  const NoPage: int := 1000000000

  /** The length of the run of ASCII digits that ends `s`. */
  function TrailingDigits(s: string): (n: nat)
    ensures n <= |s| && forall i :: |s| - n <= i < |s| ==> IsDigit(s[i])
    ensures n < |s| ==> !IsDigit(s[|s| - n - 1])
  {
    if s == [] || !IsDigit(s[|s| - 1]) then 0 else TrailingDigits(s[..|s| - 1]) + 1
  }

  /** `PAGE_INDEX_RE = -(\d+)\.html$` searched in `text`: the number, else `10**9`. */
  function PageIndexOf(text: string): (n: int)
    ensures n == NoPage || n >= 0
  {
    if EndsWith(text, ".html") then
      var body := text[..|text| - 5];
      var k := TrailingDigits(body);
      assert AllDigits(body[|body| - k..]);
      if 0 < k < |body| && body[|body| - k - 1] == '-' then DigitsValue(body[|body| - k..]) else NoPage
    else NoPage
  }

  /** `parse_page_index`. */
  function ParsePageIndex(htmlFile: Value, isFormat: char -> bool): (n: int)
    ensures n == NoPage || n >= 0
  {
    var text := CleanText(htmlFile, isFormat);
    if text == [] then NoPage else PageIndexOf(text)
  }

  /** Any name ending in `-<digits>.html` gives those digits' value. */
  lemma PageIndexOfName(prefix: string, digits: string)
    requires digits != [] && AllDigits(digits)
    ensures PageIndexOf(prefix + "-" + digits + ".html") == DigitsValue(digits)
  {
    var text := prefix + "-" + digits + ".html";
    var body := prefix + "-" + digits;
    assert text[..|text| - 5] == body && text[|text| - 5..] == ".html";
    TrailingOfDigits(prefix + "-", digits);
    assert body[|body| - |digits|..] == digits;
    assert body[|body| - |digits| - 1] == '-';
  }

  /** The digits that end `a + d` are those of `d` when `a` ends in something else. */
  lemma {:induction false} TrailingOfDigits(a: string, d: string)
    requires AllDigits(d) && a != [] && !IsDigit(a[|a| - 1])
    ensures TrailingDigits(a + d) == |d|
    decreases |d|
  {
    if d == [] {
      assert a + d == a;
    } else {
      assert (a + d)[..|a + d| - 1] == a + d[..|d| - 1];
      TrailingOfDigits(a, d[..|d| - 1]);
    }
  }

  /** Conversely, a name with a page index has the `-<digits>.html` shape. */
  lemma PageIndexShape(text: string)
    ensures PageIndexOf(text) != NoPage ==>
      exists prefix, digits :: digits != [] && AllDigits(digits) && text == prefix + "-" + digits + ".html"
                               && PageIndexOf(text) == DigitsValue(digits)
  {
    if PageIndexOf(text) != NoPage {
      var body := text[..|text| - 5];
      var k := TrailingDigits(body);
      var prefix, digits := body[..|body| - k - 1], body[|body| - k..];
      assert body == prefix + "-" + digits;
      assert text == body + ".html";
    }
  }

  // ------------------------------------------------------------ the records

  /** `CrawledRecord`: one usable crawled row. */
  datatype CrawledRecord = CrawledRecord(
    uniqueCode: string,
    title: string,
    departmentName: string,
    departmentCode: string,
    grDate: string,
    sourceUrl: string,
    crawlDate: string,
    pageIndex: int,
    orderIndex: int,
    sourceFile: string)

  /** `record_patch`: the crawled fields, in the FETCHED state. */
  function RecordPatch(rec: CrawledRecord): (r: Row)
  {
    map[KUniqueCode := Str(rec.uniqueCode), KTitle := Str(rec.title), KDepartmentName := Str(rec.departmentName),
        KDepartmentCode := Str(rec.departmentCode), KGrDate := Str(rec.grDate), KSourceUrl := Str(rec.sourceUrl),
        KState := Str(StateName(Fetched))]
  }

  /** The patch carries the record's code as its key, the crawled fields, and nothing but the state besides. */
  lemma RecordPatchFields(rec: CrawledRecord)
    ensures RecordKeyOf(RecordPatch(rec)) == Strip(rec.uniqueCode)
    ensures Get(RecordPatch(rec), KState) == Str("FETCHED")
    ensures Get(RecordPatch(rec), KTitle) == Str(rec.title) && Get(RecordPatch(rec), KGrDate) == Str(rec.grDate)
    ensures Get(RecordPatch(rec), KSourceUrl) == Str(rec.sourceUrl)
    ensures Get(RecordPatch(rec), KDepartmentCode) == Str(rec.departmentCode)
    ensures Get(RecordPatch(rec), KDepartmentName) == Str(rec.departmentName)
    ensures RecordPatch(rec).Keys == {KUniqueCode, KTitle, KDepartmentName, KDepartmentCode, KGrDate, KSourceUrl, KState}
  {
  }

  /** `record.crawl_date or crawl_date`. */
  function CrawlOf(rec: CrawledRecord, crawlDate: string): string
  {
    if rec.crawlDate != "" then rec.crawlDate else crawlDate
  }

  // ------------------------------------------------------------- grouping

  /** `record.department_code or "unknown"`. */
  function DeptKey(rec: CrawledRecord): (k: string)
    ensures k != ""
    ensures rec.departmentCode == "" <==> k == "unknown" && rec.departmentCode != "unknown"
  {
    if rec.departmentCode == "" then "unknown" else rec.departmentCode
  }

  function OrderKey(rec: CrawledRecord): seq<int> { [rec.orderIndex] }

  function PageKey(p: int): seq<int> { [p] }

  /** The records of department key `d` on page `p`, in input order. */
  function Select(rs: seq<CrawledRecord>, d: string, p: int): (r: seq<CrawledRecord>)
  {
    if rs == [] then []
    else
      var x := rs[|rs| - 1];
      Select(rs[..|rs| - 1], d, p) + (if DeptKey(x) == d && x.pageIndex == p then [x] else [])
  }

  /** `Select` keeps exactly the records of that department and page. */
  lemma {:induction false} SelectMembers(rs: seq<CrawledRecord>, d: string, p: int)
    ensures forall x :: x in Select(rs, d, p) <==> x in rs && DeptKey(x) == d && x.pageIndex == p
  {
    if rs != [] {
      SelectMembers(rs[..|rs| - 1], d, p);
      assert rs == rs[..|rs| - 1] + [rs[|rs| - 1]];
    }
  }

  lemma SelectSnoc(rs: seq<CrawledRecord>, x: CrawledRecord, d: string, p: int)
    ensures Select(rs + [x], d, p) == Select(rs, d, p) + (if DeptKey(x) == d && x.pageIndex == p then [x] else [])
  {
    assert (rs + [x])[..|rs|] == rs;
  }

  type Grouping = map<string, map<int, seq<CrawledRecord>>>

  /** The department keys and, per key, the page indices of the records. */
  function DeptKeys(rs: seq<CrawledRecord>): set<string>
  {
    set i | 0 <= i < |rs| :: DeptKey(rs[i])
  }

  function PageKeys(rs: seq<CrawledRecord>, d: string): set<int>
  {
    set i | 0 <= i < |rs| && DeptKey(rs[i]) == d :: rs[i].pageIndex
  }

  /**
   * What `group_daily_by_department_and_page` returns: a department key per
   * record's department, under it a page per record's page, holding that
   * department's records of that page sorted by `order_index`.
   */
  function Grouped(rs: seq<CrawledRecord>): Grouping
  {
    map d | d in DeptKeys(rs) :: PagesOf(rs, d)
  }

  /** The pages of department key `d`. */
  function PagesOf(rs: seq<CrawledRecord>, d: string): map<int, seq<CrawledRecord>>
  {
    map p | p in PageKeys(rs, d) :: SortBy(Select(rs, d, p), OrderKey)
  }

  /** `page_records.sort(key=order_index)` on every page. */
  function SortPages(pages: map<int, seq<CrawledRecord>>): map<int, seq<CrawledRecord>>
  {
    map p | p in pages :: SortBy(pages[p], OrderKey)
  }

  /** The grouping built so far: the keys of `rs`, each page its records in input order. */
  ghost predicate Collected(g: Grouping, rs: seq<CrawledRecord>)
  {
    && g.Keys == DeptKeys(rs)
    && (forall d :: d in g ==> g[d].Keys == PageKeys(rs, d))
    && (forall d, p :: d in g && p in g[d] ==> g[d][p] == Select(rs, d, p))
  }

  lemma DeptKeysSnoc(rs: seq<CrawledRecord>, x: CrawledRecord)
    ensures DeptKeys(rs + [x]) == DeptKeys(rs) + {DeptKey(x)}
  {
    var rs' := rs + [x];
    assert forall i :: 0 <= i < |rs| ==> rs'[i] == rs[i];
    assert rs'[|rs|] == x;
  }

  lemma PageKeysSnoc(rs: seq<CrawledRecord>, x: CrawledRecord, d: string)
    ensures PageKeys(rs + [x], d) == PageKeys(rs, d) + (if DeptKey(x) == d then {x.pageIndex} else {})
  {
    var rs' := rs + [x];
    assert forall i :: 0 <= i < |rs| ==> rs'[i] == rs[i];
    assert rs'[|rs|] == x;
  }

  /** A page no record of the department is on selects nothing. */
  lemma SelectNone(rs: seq<CrawledRecord>, d: string, p: int)
    requires p !in PageKeys(rs, d)
    ensures Select(rs, d, p) == []
  {
    SelectMembers(rs, d, p);
    assert forall i :: 0 <= i < |rs| && DeptKey(rs[i]) == d ==> rs[i].pageIndex in PageKeys(rs, d);
  }

  lemma CollectStep(g: Grouping, rs: seq<CrawledRecord>, x: CrawledRecord, pages': map<int, seq<CrawledRecord>>)
    requires Collected(g, rs)
    requires var pages := if DeptKey(x) in g then g[DeptKey(x)] else map[];
      var page := if x.pageIndex in pages then pages[x.pageIndex] else [];
      pages' == pages[x.pageIndex := page + [x]]
    ensures Collected(g[DeptKey(x) := pages'], rs + [x])
  {
    var k := DeptKey(x);
    var g' := g[k := pages'];
    var pages := if k in g then g[k] else map[];
    PageStep(pages, rs, x, k);
    DeptKeysSnoc(rs, x);
    assert g'.Keys == DeptKeys(rs + [x]);
    forall d | d in g' ensures g'[d].Keys == PageKeys(rs + [x], d) {
      PageKeysSnoc(rs, x, d);
    }
    forall d, p | d in g' && p in g'[d] ensures g'[d][p] == Select(rs + [x], d, p) {
      if d != k {
        SelectSnoc(rs, x, d, p);
      }
    }
  }

  /** The department of the new record gains its page, holding the record last. */
  lemma PageStep(pages: map<int, seq<CrawledRecord>>, rs: seq<CrawledRecord>, x: CrawledRecord, k: string)
    requires k == DeptKey(x)
    requires pages.Keys == PageKeys(rs, k) && forall p :: p in pages ==> pages[p] == Select(rs, k, p)
    ensures var page := if x.pageIndex in pages then pages[x.pageIndex] else [];
      var pages' := pages[x.pageIndex := page + [x]];
      pages'.Keys == PageKeys(rs + [x], k) && forall p :: p in pages' ==> pages'[p] == Select(rs + [x], k, p)
  {
    var page := if x.pageIndex in pages then pages[x.pageIndex] else [];
    var pages' := pages[x.pageIndex := page + [x]];
    PageKeysSnoc(rs, x, k);
    if x.pageIndex !in pages {
      SelectNone(rs, k, x.pageIndex);
    }
    forall p | p in pages' ensures pages'[p] == Select(rs + [x], k, p) {
      SelectSnoc(rs, x, k, p);
    }
  }

  /** Sorting every page of a collected grouping gives `Grouped`. */
  lemma GroupedOfCollected(g: Grouping, rs: seq<CrawledRecord>)
    requires Collected(g, rs)
    ensures (map d | d in g :: SortPages(g[d])) == Grouped(rs)
  {
    forall d | d in g ensures SortPages(g[d]) == PagesOf(rs, d) {
      PagesOfCollected(g[d], rs, d);
    }
  }

  lemma PagesOfCollected(pages: map<int, seq<CrawledRecord>>, rs: seq<CrawledRecord>, d: string)
    requires pages.Keys == PageKeys(rs, d)
    requires forall p :: p in pages ==> pages[p] == Select(rs, d, p)
    ensures SortPages(pages) == PagesOf(rs, d)
  {
  }

  /** `group_daily_by_department_and_page`. */
  method GroupDaily(records: seq<CrawledRecord>) returns (grouped: Grouping)
    ensures grouped == Grouped(records)
  {
    var acc: Grouping := map[];
    for i := 0 to |records|
      invariant Collected(acc, records[..i])
    {
      assert records[..i + 1] == records[..i] + [records[i]];
      var key := DeptKey(records[i]);
      var pages := if key in acc then acc[key] else map[];
      var page := if records[i].pageIndex in pages then pages[records[i].pageIndex] else [];
      CollectStep(acc, records[..i], records[i], pages[records[i].pageIndex := page + [records[i]]]);
      acc := acc[key := pages[records[i].pageIndex := page + [records[i]]]];
    }
    assert records[..|records|] == records;
    GroupedOfCollected(acc, records);
    grouped := map d | d in acc :: SortPages(acc[d]);
  }

  /**
   * Every record is under its department key (`"unknown"` for a blank
   * code) and its page; each page holds exactly the records of that
   * department and page, sorted by `order_index`.
   */
  lemma GroupedShape(rs: seq<CrawledRecord>)
    ensures forall i :: 0 <= i < |rs| ==>
      DeptKey(rs[i]) in Grouped(rs) && rs[i].pageIndex in Grouped(rs)[DeptKey(rs[i])]
      && rs[i] in Grouped(rs)[DeptKey(rs[i])][rs[i].pageIndex]
    ensures forall d, p :: d in Grouped(rs) && p in Grouped(rs)[d] ==>
      SortedBy(Grouped(rs)[d][p], OrderKey) && multiset(Grouped(rs)[d][p]) == multiset(Select(rs, d, p))
    ensures forall d, p, x :: d in Grouped(rs) && p in Grouped(rs)[d] && x in Grouped(rs)[d][p] ==>
      x in rs && DeptKey(x) == d && x.pageIndex == p
  {
    var g := Grouped(rs);
    forall d, p | d in g && p in g[d]
      ensures SortedBy(g[d][p], OrderKey) && multiset(g[d][p]) == multiset(Select(rs, d, p))
      ensures forall x :: x in g[d][p] <==> x in rs && DeptKey(x) == d && x.pageIndex == p
    {
      SortByCorrect(Select(rs, d, p), OrderKey);
      SortByElements(Select(rs, d, p), OrderKey);
      SelectMembers(rs, d, p);
    }
    forall i | 0 <= i < |rs|
      ensures DeptKey(rs[i]) in g && rs[i].pageIndex in g[DeptKey(rs[i])]
      ensures rs[i] in g[DeptKey(rs[i])][rs[i].pageIndex]
    {
      var d, p := DeptKey(rs[i]), rs[i].pageIndex;
      assert d in DeptKeys(rs) && p in PageKeys(rs, d);
      SortByElements(Select(rs, d, p), OrderKey);
      SelectMembers(rs, d, p);
    }
  }

  // ------------------------------------------------------------ the daily walk

  /** Some record of the page carries a code the ledger knows (`page_has_known`). */
  predicate HasKnown(page: seq<CrawledRecord>, known: set<string>)
  {
    exists i :: 0 <= i < |page| && page[i].uniqueCode in known
  }

  /** No page of the department before `p` has a known code: the walk reaches page `p`. */
  ghost predicate BeforeStop(pages: map<int, seq<CrawledRecord>>, known: set<string>, p: int)
  {
    forall q :: q in pages && q < p ==> !HasKnown(pages[q], known)
  }

  /** `p` is the first page of the department with a known code. */
  ghost predicate FirstKnownPage(pages: map<int, seq<CrawledRecord>>, known: set<string>, p: int)
  {
    p in pages && HasKnown(pages[p], known) && BeforeStop(pages, known, p)
  }

  ghost predicate AnyKnown(pages: map<int, seq<CrawledRecord>>, known: set<string>)
  {
    exists p :: p in pages && HasKnown(pages[p], known)
  }

  lemma PageKeyInjective(s: set<int>)
    ensures KeyInjective(s, PageKey)
  {
    forall a, b | a in s && b in s && PageKey(a) == PageKey(b) ensures a == b {
      assert PageKey(a)[0] == PageKey(b)[0];
    }
  }

  /** `sorted(pages.keys())`. */
  function PageOrder(pages: map<int, seq<CrawledRecord>>): (r: seq<int>)
    ensures |r| == |pages| && forall p :: p in r <==> p in pages
    ensures forall i, j :: 0 <= i < j < |r| ==> r[i] < r[j]
  {
    PageKeyInjective(pages.Keys);
    var r := SortedSet(pages.Keys, PageKey);
    assert forall i, j :: 0 <= i < j < |r| ==> Le(PageKey(r[i]), PageKey(r[j])) && r[i] != r[j];
    r
  }

  /** The pages' record lists, in page order. */
  function PageLists(pages: map<int, seq<CrawledRecord>>): (r: seq<seq<CrawledRecord>>)
    ensures |r| == |PageOrder(pages)|
    ensures forall i :: 0 <= i < |r| ==> r[i] == pages[PageOrder(pages)[i]]
  {
    var order := PageOrder(pages);
    seq(|order|, i requires 0 <= i < |order| => pages[order[i]])
  }

  /** The records the walk of one department reads: each page up to and including the first with a known code. */
  function Walk(lists: seq<seq<CrawledRecord>>, known: set<string>): seq<CrawledRecord>
  {
    if lists == [] then []
    else lists[0] + (if HasKnown(lists[0], known) then [] else Walk(lists[1..], known))
  }

  /** `sorted(grouped.items())`: the department keys, in string order. */
  function Departments(g: Grouping): (r: seq<string>)
    ensures forall d :: d in r <==> d in g
  {
    StrKeyInjective(g.Keys);
    SortedSet(g.Keys, StrKey)
  }

  /** The records the walks of the departments `depts` read, in order. */
  function Visit(depts: seq<string>, g: Grouping, known: set<string>): seq<CrawledRecord>
    requires forall i :: 0 <= i < |depts| ==> depts[i] in g
  {
    if depts == [] then []
    else Visit(depts[..|depts| - 1], g, known) + Walk(PageLists(g[depts[|depts| - 1]]), known)
  }

  function CodesOf(rs: seq<CrawledRecord>): set<string>
  {
    set i | 0 <= i < |rs| :: rs[i].uniqueCode
  }

  lemma CodesOfSnoc(rs: seq<CrawledRecord>, x: CrawledRecord)
    ensures CodesOf(rs + [x]) == CodesOf(rs) + {x.uniqueCode}
  {
    var rs' := rs + [x];
    assert forall i :: 0 <= i < |rs| ==> rs'[i] == rs[i];
    assert rs'[|rs|] == x;
  }

  /** The records read, without those the ledger knows and without repeats of a code. */
  function Fresh(rs: seq<CrawledRecord>, known: set<string>): seq<CrawledRecord>
  {
    if rs == [] then []
    else
      var prev := Fresh(rs[..|rs| - 1], known);
      var x := rs[|rs| - 1];
      if x.uniqueCode in known || x.uniqueCode in CodesOf(prev) then prev else prev + [x]
  }

  lemma FreshSnoc(rs: seq<CrawledRecord>, x: CrawledRecord, known: set<string>)
    ensures Fresh(rs + [x], known) ==
      if x.uniqueCode in known || x.uniqueCode in CodesOf(Fresh(rs, known)) then Fresh(rs, known)
      else Fresh(rs, known) + [x]
  {
    assert (rs + [x])[..|rs|] == rs;
  }

  /** The records `run_daily` discovers, before `max_records` cuts them. */
  function Discover(g: Grouping, known: set<string>): seq<CrawledRecord>
  {
    Fresh(Visit(Departments(g), g, known), known)
  }

  /** The inner loop of the walk over one page's records. */
  method ScanPage(page: seq<CrawledRecord>, known: set<string>, discovered: seq<CrawledRecord>, seen: set<string>,
                  ghost visited: seq<CrawledRecord>)
    returns (discovered': seq<CrawledRecord>, seen': set<string>)
    requires discovered == Fresh(visited, known) && seen == CodesOf(discovered)
    ensures discovered' == Fresh(visited + page, known) && seen' == CodesOf(discovered')
  {
    discovered', seen' := discovered, seen;
    assert visited + page[..0] == visited;
    for c := 0 to |page|
      invariant discovered' == Fresh(visited + page[..c], known) && seen' == CodesOf(discovered')
    {
      assert visited + page[..c + 1] == (visited + page[..c]) + [page[c]];
      FreshSnoc(visited + page[..c], page[c], known);
      var rec := page[c];
      if rec.uniqueCode !in known && rec.uniqueCode !in seen' {
        CodesOfSnoc(discovered', rec);
        discovered' := discovered' + [rec];
        seen' := seen' + {rec.uniqueCode};
      }
    }
    assert page[..|page|] == page;
  }

  lemma WalkFrom(lists: seq<seq<CrawledRecord>>, b: nat, known: set<string>)
    requires b < |lists|
    ensures Walk(lists[b..], known) == lists[b] + (if HasKnown(lists[b], known) then [] else Walk(lists[b + 1..], known))
  {
    assert lists[b..][1..] == lists[b + 1..];
  }

  /** After the first `b` pages of a department, none with a known code: `cur` read so far. */
  ghost predicate WalkState(pages: map<int, seq<CrawledRecord>>, known: set<string>, visited: seq<CrawledRecord>,
                            b: nat, cur: seq<CrawledRecord>, discovered: seq<CrawledRecord>, seen: set<string>)
  {
    && b <= |PageOrder(pages)|
    && discovered == Fresh(cur, known) && seen == CodesOf(discovered)
    && cur + Walk(PageLists(pages)[b..], known) == visited + Walk(PageLists(pages), known)
    && forall j :: 0 <= j < b ==> !HasKnown(PageLists(pages)[j], known)
  }

  /** The postcondition of the walk of one department. */
  ghost predicate Walked(pages: map<int, seq<CrawledRecord>>, known: set<string>, visited: seq<CrawledRecord>,
                         discovered: seq<CrawledRecord>, seen: set<string>, stop: Option<int>)
  {
    && discovered == Fresh(visited + Walk(PageLists(pages), known), known) && seen == CodesOf(discovered)
    && (stop.Some? <==> AnyKnown(pages, known))
    && (stop.Some? ==> FirstKnownPage(pages, known, stop.value))
  }

  /** A page with a known code ends the walk: what was read so far is the whole walk. */
  lemma PageStop(pages: map<int, seq<CrawledRecord>>, known: set<string>, visited: seq<CrawledRecord>, b: nat,
                 cur: seq<CrawledRecord>, discovered: seq<CrawledRecord>, seen: set<string>,
                 discovered': seq<CrawledRecord>)
    requires WalkState(pages, known, visited, b, cur, discovered, seen) && b < |PageOrder(pages)|
    requires HasKnown(PageLists(pages)[b], known)
    requires discovered' == Fresh(cur + PageLists(pages)[b], known)
    ensures Walked(pages, known, visited, discovered', CodesOf(discovered'), Some(PageOrder(pages)[b]))
  {
    var lists := PageLists(pages);
    WalkFrom(lists, b, known);
    assert Walk(lists[b..], known) == lists[b] + [];
    assert visited + Walk(lists, known) == cur + lists[b];
    StopIsFirst(pages, known, PageOrder(pages), b);
  }

  /** A page without a known code is read whole and the walk goes on to the next. */
  lemma PageGo(pages: map<int, seq<CrawledRecord>>, known: set<string>, visited: seq<CrawledRecord>, b: nat,
               cur: seq<CrawledRecord>, discovered: seq<CrawledRecord>, seen: set<string>,
               discovered': seq<CrawledRecord>)
    requires WalkState(pages, known, visited, b, cur, discovered, seen) && b < |PageOrder(pages)|
    requires !HasKnown(PageLists(pages)[b], known)
    requires discovered' == Fresh(cur + PageLists(pages)[b], known)
    ensures WalkState(pages, known, visited, b + 1, cur + PageLists(pages)[b], discovered', CodesOf(discovered'))
  {
    var lists := PageLists(pages);
    WalkFrom(lists, b, known);
    var rest := Walk(lists[b + 1..], known);
    assert Walk(lists[b..], known) == lists[b] + rest;
    ConcatAssoc(cur, lists[b], rest);
  }

  lemma ConcatAssoc(a: seq<CrawledRecord>, b: seq<CrawledRecord>, c: seq<CrawledRecord>)
    ensures (a + b) + c == a + (b + c)
  {
  }

  /** One page of the walk: its records are scanned, and a known code among them ends the walk there. */
  method WalkPage(pages: map<int, seq<CrawledRecord>>, known: set<string>, order: seq<int>, b: nat,
                  discovered: seq<CrawledRecord>, seen: set<string>, ghost visited: seq<CrawledRecord>,
                  ghost cur: seq<CrawledRecord>)
    returns (discovered': seq<CrawledRecord>, seen': set<string>, stop: bool, ghost cur': seq<CrawledRecord>)
    requires order == PageOrder(pages) && b < |order|
    requires WalkState(pages, known, visited, b, cur, discovered, seen)
    ensures stop ==> Walked(pages, known, visited, discovered', seen', Some(order[b]))
    ensures !stop ==> WalkState(pages, known, visited, b + 1, cur', discovered', seen')
  {
    var page := pages[order[b]];
    assert page == PageLists(pages)[b];
    discovered', seen' := ScanPage(page, known, discovered, seen, cur);
    cur' := cur + page;
    stop := HasKnown(page, known);
    if stop {
      PageStop(pages, known, visited, b, cur, discovered, seen, discovered');
    } else {
      PageGo(pages, known, visited, b, cur, discovered, seen, discovered');
    }
  }

  /** One department of `run_daily`: its pages in ascending order until the first with a known code. */
  method WalkDepartment(pages: map<int, seq<CrawledRecord>>, known: set<string>, discovered: seq<CrawledRecord>,
                        seen: set<string>, ghost visited: seq<CrawledRecord>)
    returns (discovered': seq<CrawledRecord>, seen': set<string>, stop: Option<int>)
    requires discovered == Fresh(visited, known) && seen == CodesOf(discovered)
    ensures Walked(pages, known, visited, discovered', seen', stop)
  {
    var order := PageOrder(pages);
    discovered', seen', stop := discovered, seen, None;
    ghost var cur := visited;
    assert PageLists(pages)[0..] == PageLists(pages);
    var b := 0;
    while b < |order|
      invariant WalkState(pages, known, visited, b, cur, discovered', seen')
    {
      var found;
      discovered', seen', found, cur := WalkPage(pages, known, order, b, discovered', seen', visited, cur);
      if found {
        return discovered', seen', Some(order[b]);
      }
      b := b + 1;
    }
    WalkEnd(pages, known, visited, cur, discovered', seen');
  }

  /** A walk through every page without a known code read them all. */
  lemma WalkEnd(pages: map<int, seq<CrawledRecord>>, known: set<string>, visited: seq<CrawledRecord>,
                cur: seq<CrawledRecord>, discovered: seq<CrawledRecord>, seen: set<string>)
    requires WalkState(pages, known, visited, |PageOrder(pages)|, cur, discovered, seen)
    ensures Walked(pages, known, visited, discovered, seen, None)
  {
    var lists := PageLists(pages);
    assert lists[|lists|..] == [];
    assert cur == visited + Walk(lists, known);
    NoneKnown(pages, known, PageOrder(pages));
  }

  /** The walk stops at the `b`-th page in order only when it is the first with a known code. */
  lemma StopIsFirst(pages: map<int, seq<CrawledRecord>>, known: set<string>, order: seq<int>, b: nat)
    requires order == PageOrder(pages) && b < |order|
    requires HasKnown(pages[order[b]], known)
    requires forall j :: 0 <= j < b ==> !HasKnown(PageLists(pages)[j], known)
    ensures AnyKnown(pages, known) && FirstKnownPage(pages, known, order[b])
  {
    forall q | q in pages && q < order[b] ensures !HasKnown(pages[q], known) {
      var j :| 0 <= j < |order| && order[j] == q;
      assert PageLists(pages)[j] == pages[q];
    }
  }

  lemma NoneKnown(pages: map<int, seq<CrawledRecord>>, known: set<string>, order: seq<int>)
    requires order == PageOrder(pages)
    requires forall j :: 0 <= j < |order| ==> !HasKnown(PageLists(pages)[j], known)
    ensures !AnyKnown(pages, known)
  {
    forall q | q in pages ensures !HasKnown(pages[q], known) {
      var j :| 0 <= j < |order| && order[j] == q;
      assert PageLists(pages)[j] == pages[q];
    }
  }

  /**
   * The discovery loop of `run_daily`: the departments in order, each
   * walked until its first page with a known code, which is recorded as
   * that department's stop page.
   */
  method DiscoverDaily(g: Grouping, known: set<string>)
    returns (discovered: seq<CrawledRecord>, stops: map<string, int>)
    ensures discovered == Discover(g, known)
    ensures forall d :: d in stops <==> d in g && AnyKnown(g[d], known)
    ensures forall d :: d in stops ==> d in g && FirstKnownPage(g[d], known, stops[d])
  {
    var depts := Departments(g);
    discovered, stops := [], map[];
    var seen: set<string> := {};
    DeptStart(g, known, depts);
    for a := 0 to |depts|
      invariant DeptState(g, known, depts, a, discovered, seen, stops)
    {
      var stop, discovered', seen';
      discovered', seen', stop := WalkDepartment(g[depts[a]], known, discovered, seen, Visit(depts[..a], g, known));
      var stops' := if stop.Some? then stops[depts[a] := stop.value] else stops;
      DeptStep(g, known, depts, a, discovered, seen, stops, discovered', seen', stop, stops');
      discovered, seen, stops := discovered', seen', stops';
    }
    DeptEnd(g, known, depts, discovered, seen, stops);
  }

  lemma DeptStart(g: Grouping, known: set<string>, depts: seq<string>)
    requires depts == Departments(g)
    ensures DeptState(g, known, depts, 0, [], {}, map[])
  {
    assert depts[..0] == [];
  }

  lemma DeptEnd(g: Grouping, known: set<string>, depts: seq<string>,
                discovered: seq<CrawledRecord>, seen: set<string>, stops: map<string, int>)
    requires depts == Departments(g)
    requires DeptState(g, known, depts, |depts|, discovered, seen, stops)
    ensures discovered == Discover(g, known)
    ensures forall d :: d in stops <==> d in g && AnyKnown(g[d], known)
    ensures forall d :: d in stops ==> d in g && FirstKnownPage(g[d], known, stops[d])
  {
    assert depts[..|depts|] == depts;
  }

  /** After the first `a` departments in order. */
  ghost predicate DeptState(g: Grouping, known: set<string>, depts: seq<string>, a: nat,
                            discovered: seq<CrawledRecord>, seen: set<string>, stops: map<string, int>)
  {
    && a <= |depts| && (forall i :: 0 <= i < |depts| ==> depts[i] in g)
    && discovered == Fresh(Visit(depts[..a], g, known), known) && seen == CodesOf(discovered)
    && (forall d :: d in stops <==> d in depts[..a] && AnyKnown(g[d], known))
    && (forall d :: d in stops ==> d in g && FirstKnownPage(g[d], known, stops[d]))
  }

  lemma DeptStep(g: Grouping, known: set<string>, depts: seq<string>, a: nat,
                 discovered: seq<CrawledRecord>, seen: set<string>, stops: map<string, int>,
                 discovered': seq<CrawledRecord>, seen': set<string>, stop: Option<int>, stops': map<string, int>)
    requires DeptState(g, known, depts, a, discovered, seen, stops) && a < |depts|
    requires Walked(g[depts[a]], known, Visit(depts[..a], g, known), discovered', seen', stop)
    requires stops' == if stop.Some? then stops[depts[a] := stop.value] else stops
    ensures DeptState(g, known, depts, a + 1, discovered', seen', stops')
  {
    DeptFresh(g, known, depts, a, discovered, seen, stops, discovered', seen', stop);
    DeptStops(g, known, depts, a, discovered, seen, stops, discovered', seen', stop, stops');
    DeptStateIntro(g, known, depts, a + 1, discovered', seen', stops');
  }

  lemma DeptStateIntro(g: Grouping, known: set<string>, depts: seq<string>, a: nat,
                       discovered: seq<CrawledRecord>, seen: set<string>, stops: map<string, int>)
    requires a <= |depts| && (forall i :: 0 <= i < |depts| ==> depts[i] in g)
    requires discovered == Fresh(Visit(depts[..a], g, known), known) && seen == CodesOf(discovered)
    requires forall d :: d in stops <==> d in depts[..a] && AnyKnown(g[d], known)
    requires forall d :: d in stops ==> d in g && FirstKnownPage(g[d], known, stops[d])
    ensures DeptState(g, known, depts, a, discovered, seen, stops)
  {
  }

  lemma DeptFresh(g: Grouping, known: set<string>, depts: seq<string>, a: nat,
                  discovered: seq<CrawledRecord>, seen: set<string>, stops: map<string, int>,
                  discovered': seq<CrawledRecord>, seen': set<string>, stop: Option<int>)
    requires DeptState(g, known, depts, a, discovered, seen, stops) && a < |depts|
    requires Walked(g[depts[a]], known, Visit(depts[..a], g, known), discovered', seen', stop)
    ensures discovered' == Fresh(Visit(depts[..a + 1], g, known), known) && seen' == CodesOf(discovered')
  {
    VisitSnoc(g, known, depts, a);
  }

  lemma DeptStops(g: Grouping, known: set<string>, depts: seq<string>, a: nat,
                  discovered: seq<CrawledRecord>, seen: set<string>, stops: map<string, int>,
                  discovered': seq<CrawledRecord>, seen': set<string>, stop: Option<int>, stops': map<string, int>)
    requires DeptState(g, known, depts, a, discovered, seen, stops) && a < |depts|
    requires Walked(g[depts[a]], known, Visit(depts[..a], g, known), discovered', seen', stop)
    requires stops' == if stop.Some? then stops[depts[a] := stop.value] else stops
    ensures forall d :: d in stops' <==> d in depts[..a + 1] && AnyKnown(g[d], known)
    ensures forall d :: d in stops' ==> d in g && FirstKnownPage(g[d], known, stops'[d])
  {
    StopsSnoc(g, known, depts, a, stops, stop, stops');
  }

  lemma VisitSnoc(g: Grouping, known: set<string>, depts: seq<string>, a: nat)
    requires a < |depts| && forall i :: 0 <= i < |depts| ==> depts[i] in g
    ensures Visit(depts[..a + 1], g, known) == Visit(depts[..a], g, known) + Walk(PageLists(g[depts[a]]), known)
  {
    var ds := depts[..a + 1];
    assert ds[..a] == depts[..a] && ds[a] == depts[a];
  }

  lemma StopsSnoc(g: Grouping, known: set<string>, depts: seq<string>, a: nat, stops: map<string, int>,
                  stop: Option<int>, stops': map<string, int>)
    requires a < |depts| && forall i :: 0 <= i < |depts| ==> depts[i] in g
    requires forall d :: d in stops <==> d in depts[..a] && AnyKnown(g[d], known)
    requires forall d :: d in stops ==> d in g && FirstKnownPage(g[d], known, stops[d])
    requires stop.Some? <==> AnyKnown(g[depts[a]], known)
    requires stop.Some? ==> FirstKnownPage(g[depts[a]], known, stop.value)
    requires stops' == if stop.Some? then stops[depts[a] := stop.value] else stops
    ensures forall d :: d in stops' <==> d in depts[..a + 1] && AnyKnown(g[d], known)
    ensures forall d :: d in stops' ==> d in g && FirstKnownPage(g[d], known, stops'[d])
  {
    assert forall d :: d in depts[..a + 1] <==> d in depts[..a] || d == depts[a];
  }

  // ----------------------------------------------------- what the walk finds

  /** A record lies on a page read by its department's walk: no earlier page there has a known code. */
  ghost predicate Reached(g: Grouping, known: set<string>, x: CrawledRecord)
  {
    exists d, p :: d in g && p in g[d] && x in g[d][p] && BeforeStop(g[d], known, p)
  }

  /** The walk over page lists reads the `i`-th list exactly when no list before it has a known code. */
  lemma {:induction false} WalkIndex(lists: seq<seq<CrawledRecord>>, known: set<string>, x: CrawledRecord)
    ensures x in Walk(lists, known) <==>
      exists i :: 0 <= i < |lists| && x in lists[i] && forall j :: 0 <= j < i ==> !HasKnown(lists[j], known)
    decreases |lists|
  {
    if lists != [] {
      var tail := lists[1..];
      WalkIndex(tail, known, x);
      if x in Walk(lists, known) {
        if x !in lists[0] {
          assert !HasKnown(lists[0], known) && x in Walk(tail, known);
          var i :| 0 <= i < |tail| && x in tail[i] && forall j :: 0 <= j < i ==> !HasKnown(tail[j], known);
          assert forall j :: 0 <= j < i + 1 ==> !HasKnown(lists[j], known) by {
            forall j | 0 <= j < i + 1 ensures !HasKnown(lists[j], known) {
              if j > 0 { assert lists[j] == tail[j - 1]; }
            }
          }
          assert x in lists[i + 1];
        }
      }
      if exists i :: 0 <= i < |lists| && x in lists[i] && forall j :: 0 <= j < i ==> !HasKnown(lists[j], known) {
        var i :| 0 <= i < |lists| && x in lists[i] && forall j :: 0 <= j < i ==> !HasKnown(lists[j], known);
        if i > 0 {
          assert !HasKnown(lists[0], known);
          assert x in tail[i - 1] && forall j :: 0 <= j < i - 1 ==> !HasKnown(tail[j], known);
        }
      }
    }
  }

  /** One department's walk reads a record exactly when its page comes no later than the first known page. */
  lemma WalkMembers(pages: map<int, seq<CrawledRecord>>, known: set<string>, x: CrawledRecord)
    ensures x in Walk(PageLists(pages), known) <==> exists p :: p in pages && x in pages[p] && BeforeStop(pages, known, p)
  {
    WalkIndex(PageLists(pages), known, x);
    if x in Walk(PageLists(pages), known) {
      var i :| 0 <= i < |PageLists(pages)| && x in PageLists(pages)[i]
        && forall j :: 0 <= j < i ==> !HasKnown(PageLists(pages)[j], known);
      WalkedPage(pages, known, x, i);
    }
    if exists p :: p in pages && x in pages[p] && BeforeStop(pages, known, p) {
      var p :| p in pages && x in pages[p] && BeforeStop(pages, known, p);
      PageWalked(pages, known, x, p);
    }
  }

  lemma WalkedPage(pages: map<int, seq<CrawledRecord>>, known: set<string>, x: CrawledRecord, i: nat)
    requires i < |PageLists(pages)| && x in PageLists(pages)[i]
    requires forall j :: 0 <= j < i ==> !HasKnown(PageLists(pages)[j], known)
    ensures exists p :: p in pages && x in pages[p] && BeforeStop(pages, known, p)
  {
    var order, lists := PageOrder(pages), PageLists(pages);
    forall q | q in pages && q < order[i] ensures !HasKnown(pages[q], known) {
      var j :| 0 <= j < |order| && order[j] == q;
      assert j < i;
      assert lists[j] == pages[q];
    }
    assert order[i] in pages && x in pages[order[i]] && BeforeStop(pages, known, order[i]);
  }

  lemma PageWalked(pages: map<int, seq<CrawledRecord>>, known: set<string>, x: CrawledRecord, p: int)
    requires p in pages && x in pages[p] && BeforeStop(pages, known, p)
    ensures exists i :: (0 <= i < |PageLists(pages)| && x in PageLists(pages)[i]
                         && forall j :: 0 <= j < i ==> !HasKnown(PageLists(pages)[j], known))
  {
    var order, lists := PageOrder(pages), PageLists(pages);
    var i :| 0 <= i < |order| && order[i] == p;
    forall j | 0 <= j < i ensures !HasKnown(lists[j], known) {
      assert order[j] in pages && order[j] < p;
    }
    assert x in lists[i];
  }

  /** The walks of the departments `depts` read exactly what some one of them reads. */
  lemma {:induction false} VisitMembers(depts: seq<string>, g: Grouping, known: set<string>, x: CrawledRecord)
    requires forall i :: 0 <= i < |depts| ==> depts[i] in g
    ensures x in Visit(depts, g, known) <==> exists k :: 0 <= k < |depts| && x in Walk(PageLists(g[depts[k]]), known)
    decreases |depts|
  {
    if depts != [] {
      var init := depts[..|depts| - 1];
      VisitMembers(init, g, known, x);
      if exists k :: 0 <= k < |depts| && x in Walk(PageLists(g[depts[k]]), known) {
        var k :| 0 <= k < |depts| && x in Walk(PageLists(g[depts[k]]), known);
        if k < |depts| - 1 {
          assert init[k] == depts[k];
        }
      }
      if x in Visit(init, g, known) {
        var k :| 0 <= k < |init| && x in Walk(PageLists(g[init[k]]), known);
        assert depts[k] == init[k];
      }
    }
  }

  /** `run_daily` reads a record exactly when the record is reached in its department. */
  lemma VisitReached(g: Grouping, known: set<string>, x: CrawledRecord)
    ensures x in Visit(Departments(g), g, known) <==> Reached(g, known, x)
  {
    var depts := Departments(g);
    VisitMembers(depts, g, known, x);
    if x in Visit(depts, g, known) {
      var k :| 0 <= k < |depts| && x in Walk(PageLists(g[depts[k]]), known);
      WalkReached(g, known, depts[k], x);
    }
    if Reached(g, known, x) {
      ReachedWalk(g, known, depts, x);
    }
  }

  lemma WalkReached(g: Grouping, known: set<string>, d: string, x: CrawledRecord)
    requires d in g && x in Walk(PageLists(g[d]), known)
    ensures Reached(g, known, x)
  {
    WalkMembers(g[d], known, x);
  }

  lemma ReachedWalk(g: Grouping, known: set<string>, depts: seq<string>, x: CrawledRecord)
    requires forall d :: d in depts <==> d in g
    requires Reached(g, known, x)
    ensures exists k :: 0 <= k < |depts| && depts[k] in g && x in Walk(PageLists(g[depts[k]]), known)
  {
    var d, p :| d in g && p in g[d] && x in g[d][p] && BeforeStop(g[d], known, p);
    WalkMembers(g[d], known, x);
    var k :| 0 <= k < |depts| && depts[k] == d;
  }

  /** `x` is the first of `rs` with its code. */
  ghost predicate FirstOf(rs: seq<CrawledRecord>, x: CrawledRecord)
  {
    exists k :: 0 <= k < |rs| && rs[k] == x && forall k' :: 0 <= k' < k ==> rs[k'].uniqueCode != x.uniqueCode
  }

  /** One more record read: the kept ones, and that one when its code is new. */
  lemma FreshLast(rs: seq<CrawledRecord>, known: set<string>)
    requires rs != []
    ensures var prev, x := Fresh(rs[..|rs| - 1], known), rs[|rs| - 1];
      Fresh(rs, known) == if x.uniqueCode in known || x.uniqueCode in CodesOf(prev) then prev else prev + [x]
  {
  }

  /** Every record kept was read, and its code is not known. */
  lemma {:induction false} FreshFrom(rs: seq<CrawledRecord>, known: set<string>)
    ensures var f := Fresh(rs, known);
      forall i :: 0 <= i < |f| ==> f[i] in rs && f[i].uniqueCode !in known
    decreases |rs|
  {
    if rs != [] {
      var init, x := rs[..|rs| - 1], rs[|rs| - 1];
      FreshFrom(init, known);
      FreshLast(rs, known);
      var prev := Fresh(init, known);
      assert forall y :: y in init ==> y in rs;
      if !(x.uniqueCode in known || x.uniqueCode in CodesOf(prev)) {
        var f := prev + [x];
        assert forall i :: 0 <= i < |prev| ==> f[i] == prev[i];
        assert f[|prev|] == x;
      }
    }
  }

  /** No code is kept twice. */
  lemma {:induction false} FreshDistinct(rs: seq<CrawledRecord>, known: set<string>)
    ensures var f := Fresh(rs, known);
      forall i, j :: 0 <= i < j < |f| ==> f[i].uniqueCode != f[j].uniqueCode
    decreases |rs|
  {
    if rs != [] {
      var init, x := rs[..|rs| - 1], rs[|rs| - 1];
      FreshDistinct(init, known);
      FreshLast(rs, known);
      var prev := Fresh(init, known);
      if !(x.uniqueCode in known || x.uniqueCode in CodesOf(prev)) {
        var f := prev + [x];
        assert f[|prev|] == x;
        assert forall i :: 0 <= i < |prev| ==> f[i] == prev[i] && prev[i].uniqueCode in CodesOf(prev);
      }
    }
  }

  /** Every code read and not known is kept. */
  lemma {:induction false} FreshComplete(rs: seq<CrawledRecord>, known: set<string>)
    ensures forall x :: x in rs && x.uniqueCode !in known ==> x.uniqueCode in CodesOf(Fresh(rs, known))
    decreases |rs|
  {
    if rs != [] {
      var init, x := rs[..|rs| - 1], rs[|rs| - 1];
      FreshComplete(init, known);
      FreshLast(rs, known);
      var prev := Fresh(init, known);
      assert forall y :: y in rs ==> y in init || y == x;
      if !(x.uniqueCode in known || x.uniqueCode in CodesOf(prev)) {
        CodesOfSnoc(prev, x);
      }
    }
  }

  /** The record kept for a code is the first read with that code. */
  lemma {:induction false} FreshFirst(rs: seq<CrawledRecord>, known: set<string>)
    ensures var f := Fresh(rs, known);
      forall i :: 0 <= i < |f| ==> FirstOf(rs, f[i])
    decreases |rs|
  {
    if rs != [] {
      var init, x := rs[..|rs| - 1], rs[|rs| - 1];
      FreshFirst(init, known);
      FreshLast(rs, known);
      var prev := Fresh(init, known);
      forall i | 0 <= i < |prev| ensures FirstOf(rs, prev[i]) {
        assert FirstOf(init, prev[i]);
        var k :| 0 <= k < |init| && init[k] == prev[i] && forall k' :: 0 <= k' < k ==> init[k'].uniqueCode != prev[i].uniqueCode;
        assert rs[k] == init[k];
      }
      if !(x.uniqueCode in known || x.uniqueCode in CodesOf(prev)) {
        FreshComplete(init, known);
        forall k' | 0 <= k' < |rs| - 1 ensures rs[k'].uniqueCode != x.uniqueCode {
          assert rs[k'] in init;
        }
        assert FirstOf(rs, x);
        var f := prev + [x];
        assert f[|prev|] == x;
        assert forall i :: 0 <= i < |prev| ==> f[i] == prev[i];
      }
    }
  }

  /**
   * What `run_daily` discovers: records reached in their departments, with
   * codes the ledger does not know; each the first with its code in reading
   * order (departments by code, pages ascending, records by `order_index`);
   * no code twice; and every code reached and not known is there.
   */
  lemma DiscoverFrom(g: Grouping, known: set<string>)
    ensures forall x :: x in Discover(g, known) ==> Reached(g, known, x) && x.uniqueCode !in known
  {
    KeptFrom(g, known, Visit(Departments(g), g, known));
  }

  lemma KeptFrom(g: Grouping, known: set<string>, v: seq<CrawledRecord>)
    requires v == Visit(Departments(g), g, known)
    ensures forall x :: x in Fresh(v, known) ==> Reached(g, known, x) && x.uniqueCode !in known
  {
    FreshFrom(v, known);
    forall x | x in v ensures Reached(g, known, x) {
      VisitReached(g, known, x);
    }
  }

  lemma DiscoverFirst(g: Grouping, known: set<string>)
    ensures forall x :: x in Discover(g, known) ==> FirstOf(Visit(Departments(g), g, known), x)
  {
    KeptFirst(Visit(Departments(g), g, known), known);
  }

  lemma KeptFirst(v: seq<CrawledRecord>, known: set<string>)
    ensures forall x :: x in Fresh(v, known) ==> FirstOf(v, x)
  {
    FreshFirst(v, known);
  }

  lemma DiscoverDistinct(g: Grouping, known: set<string>)
    ensures forall i, j :: 0 <= i < j < |Discover(g, known)| ==>
      Discover(g, known)[i].uniqueCode != Discover(g, known)[j].uniqueCode
  {
    KeptDistinct(Visit(Departments(g), g, known), known);
  }

  lemma KeptDistinct(v: seq<CrawledRecord>, known: set<string>)
    ensures forall i, j :: 0 <= i < j < |Fresh(v, known)| ==> Fresh(v, known)[i].uniqueCode != Fresh(v, known)[j].uniqueCode
  {
    FreshDistinct(v, known);
  }

  lemma DiscoverComplete(g: Grouping, known: set<string>)
    ensures forall x :: Reached(g, known, x) && x.uniqueCode !in known ==> x.uniqueCode in CodesOf(Discover(g, known))
  {
    var v := Visit(Departments(g), g, known);
    FreshComplete(v, known);
    forall x | Reached(g, known, x) ensures x in v {
      VisitReached(g, known, x);
    }
  }

  // ------------------------------------------------------------ run_daily

  /** `x[:max_records]` when `max_records > 0`, else everything. */
  function Limit<T>(xs: seq<T>, maxRecords: int): (r: seq<T>)
    ensures maxRecords > 0 && maxRecords < |xs| ==> |r| == maxRecords
    ensures maxRecords <= 0 || maxRecords >= |xs| ==> r == xs
    ensures r == xs[..|r|]
  {
    if maxRecords > 0 && maxRecords < |xs| then xs[..maxRecords] else xs
  }

  /** The codes of the records, in order. */
  function CodeList(rs: seq<CrawledRecord>): (r: seq<string>)
    ensures |r| == |rs| && forall i :: 0 <= i < |rs| ==> r[i] == rs[i].uniqueCode
  {
    if rs == [] then [] else [rs[0].uniqueCode] + CodeList(rs[1..])
  }

  /** The text `unique_code` of each record that has one. */
  function KnownCodes(rows: seq<Row>): set<string>
  {
    set i | 0 <= i < |rows| && Get(rows[i], KUniqueCode).Str? :: Get(rows[i], KUniqueCode).s
  }

  /** The codes the store's records show: for each stored key, its url row's code, or the key. */
  ghost function KnownIn(s: Spaces, now: string): set<string>
    requires SpacesValid(s)
  {
    set k | k in s.url.index :: Get(Merged(s, k, now).value, KUniqueCode).s
  }

  /** The known codes `run_daily` and `run_monthly` read off `iter_records` are the store's. */
  lemma KnownCodesOfRecords(s: Spaces, rows: seq<Row>, now: string)
    requires SpacesValid(s)
    requires forall i :: 0 <= i < |rows| ==> Merged(s, RecordText(rows[i]), now) == Some(rows[i])
    requires forall k :: k in s.url.index ==> exists i :: 0 <= i < |rows| && RecordText(rows[i]) == k
    ensures KnownCodes(rows) == KnownIn(s, now)
  {
    forall i | 0 <= i < |rows| ensures Get(rows[i], KUniqueCode).Str? && Get(rows[i], KUniqueCode).s in KnownIn(s, now) {
      var k := RecordText(rows[i]);
      assert k in s.url.index;
      assert Get(Merged(s, k, now).value, KUniqueCode).s == Get(rows[i], KUniqueCode).s;
    }
    forall c | c in KnownIn(s, now) ensures c in KnownCodes(rows) {
      var k :| k in s.url.index && Get(Merged(s, k, now).value, KUniqueCode).s == c;
      var i :| 0 <= i < |rows| && RecordText(rows[i]) == k;
      assert Merged(s, k, now) == Some(rows[i]);
    }
  }

  /** The run's `insert` of one record: its patch, under the run type, on its crawl date or the run's. */
  function InsertCrawled(s: Spaces, rec: CrawledRecord, runType: string, crawlDate: string, today: Date, now: string)
    : Result<(Spaces, UpsertResult)>
    requires SpacesValid(s) && ValidDate(today)
  {
    InsertRecord(s, RecordPatch(rec), NormalizeRunType(Some(runType)), NormalizeCrawlDate(Str(CrawlOf(rec, crawlDate)), today), now)
  }

  /** The inserts of `run_daily`, one per record, up to the first that raises. */
  function InsertAll(s: Spaces, rs: seq<CrawledRecord>, crawlDate: string, today: Date, now: string)
    : (r: (Spaces, Option<Error>))
    requires SpacesValid(s) && ValidDate(today)
    ensures SpacesValid(r.0)
    decreases |rs|
  {
    if rs == [] then (s, None)
    else
      var w := InsertCrawled(s, rs[0], "daily", crawlDate, today, now);
      if w.Err? then (s, Some(w.error)) else InsertAll(w.value.0, rs[1..], crawlDate, today, now)
  }

  /** Each record's stripped code, in turn, is non-blank and new to `keys` and to the codes before it. */
  predicate Fits(keys: set<string>, rs: seq<CrawledRecord>)
    decreases |rs|
  {
    rs == [] || (Strip(rs[0].uniqueCode) != "" && Strip(rs[0].uniqueCode) !in keys
                 && Fits(keys + {Strip(rs[0].uniqueCode)}, rs[1..]))
  }

  /** The records' stripped codes. */
  function KeysOf(rs: seq<CrawledRecord>): set<string>
    decreases |rs|
  {
    if rs == [] then {} else {Strip(rs[0].uniqueCode)} + KeysOf(rs[1..])
  }

  /**
   * The inserts succeed exactly when the codes fit the store's keys; the
   * store then holds exactly its old keys and the records'.  A failure is
   * a blank code or a duplicate.
   */
  lemma {:induction false} InsertAllFits(s: Spaces, rs: seq<CrawledRecord>, crawlDate: string, today: Date, now: string,
                                         r: (Spaces, Option<Error>))
    requires SpacesValid(s) && ValidDate(today) && r == InsertAll(s, rs, crawlDate, today, now)
    ensures r.1.None? <==> Fits(s.url.index.Keys, rs)
    decreases |rs|
  {
    if rs != [] {
      InsertCrawledKeys(s, rs[0], "daily", crawlDate, today, now);
      var w := InsertCrawled(s, rs[0], "daily", crawlDate, today, now);
      if w.Ok? {
        InsertAllFits(w.value.0, rs[1..], crawlDate, today, now, r);
      }
    }
  }

  lemma {:induction false} InsertAllKeys(s: Spaces, rs: seq<CrawledRecord>, crawlDate: string, today: Date, now: string,
                                         r: (Spaces, Option<Error>))
    requires SpacesValid(s) && ValidDate(today) && r == InsertAll(s, rs, crawlDate, today, now)
    ensures r.1.None? ==> r.0.url.index.Keys == s.url.index.Keys + KeysOf(rs)
    decreases |rs|
  {
    if rs != [] {
      InsertCrawledKeys(s, rs[0], "daily", crawlDate, today, now);
      var w := InsertCrawled(s, rs[0], "daily", crawlDate, today, now);
      if w.Ok? {
        InsertAllKeys(w.value.0, rs[1..], crawlDate, today, now, r);
        if r.1.None? {
          KeysUnion(s.url.index.Keys, w.value.0.url.index.Keys, rs, r.0.url.index.Keys);
        }
      }
    }
  }

  lemma KeysUnion(k0: set<string>, k1: set<string>, rs: seq<CrawledRecord>, kr: set<string>)
    requires rs != [] && k1 == k0 + {Strip(rs[0].uniqueCode)} && kr == k1 + KeysOf(rs[1..])
    ensures kr == k0 + KeysOf(rs)
  {
    assert KeysOf(rs) == {Strip(rs[0].uniqueCode)} + KeysOf(rs[1..]);
  }

  lemma {:induction false} InsertAllFails(s: Spaces, rs: seq<CrawledRecord>, crawlDate: string, today: Date, now: string,
                                          r: (Spaces, Option<Error>))
    requires SpacesValid(s) && ValidDate(today) && r == InsertAll(s, rs, crawlDate, today, now)
    ensures r.1.Some? ==> r.1.value == ValueError || r.1.value.DuplicateUniqueCode?
    decreases |rs|
  {
    if rs != [] {
      InsertCrawledKeys(s, rs[0], "daily", crawlDate, today, now);
      var w := InsertCrawled(s, rs[0], "daily", crawlDate, today, now);
      if w.Ok? {
        InsertAllFails(w.value.0, rs[1..], crawlDate, today, now, r);
      }
    }
  }

  /** One record's insert: it succeeds exactly on a non-blank new code, which it adds to the keys. */
  lemma InsertCrawledKeys(s: Spaces, rec: CrawledRecord, runType: string, crawlDate: string, today: Date, now: string)
    requires SpacesValid(s) && ValidDate(today)
    ensures var w := InsertCrawled(s, rec, runType, crawlDate, today, now);
      && (w.Ok? <==> Strip(rec.uniqueCode) != "" && Strip(rec.uniqueCode) !in s.url.index)
      && (w.Ok? ==> SpacesValid(w.value.0) && w.value.0.url.index.Keys == s.url.index.Keys + {Strip(rec.uniqueCode)})
      && (w.Err? ==> w.error == ValueError || w.error.DuplicateUniqueCode?)
  {
    RecordPatchFields(rec);
    var w := InsertCrawled(s, rec, runType, crawlDate, today, now);
    if w.Ok? {
      InsertedKeys(s, w.value.0, Strip(rec.uniqueCode));
    }
  }

  /** One insert adds its key to the url index and no other. */
  lemma InsertedKeys(s: Spaces, s': Spaces, key: string)
    requires SpacesValid(s) && SpacesValid(s')
    requires key != "" && key !in s.url.index
    requires KeptExcept(s.url, s'.url, key) && FindRow(s'.url, key).Some?
    ensures s'.url.index.Keys == s.url.index.Keys + {key}
  {
    forall k ensures k in s'.url.index <==> k in s.url.index || k == key {
      assert FindRow(s'.url, k).Some? <==> k in s'.url.index;
      assert FindRow(s.url, k).Some? <==> k in s.url.index;
    }
  }

  /** What `run_daily` reports. */
  datatype DailyReport = DailyReport(inputRecords: nat, discoveredCodes: seq<string>, stopPages: nat, writesEnabled: bool)

  /** The departments whose walk stopped at a page with a known code. */
  ghost function StopDepartments(g: Grouping, known: set<string>): set<string>
  {
    set d | d in g && AnyKnown(g[d], known)
  }

  /** The inserts from the `i`-th record on: that record's, then the rest. */
  lemma InsertAllFrom(s: Spaces, rs: seq<CrawledRecord>, i: nat, crawlDate: string, today: Date, now: string)
    requires SpacesValid(s) && ValidDate(today) && i < |rs|
    ensures var w := InsertCrawled(s, rs[i], "daily", crawlDate, today, now);
      InsertAll(s, rs[i..], crawlDate, today, now)
        == if w.Err? then (s, Some(w.error)) else InsertAll(w.value.0, rs[i + 1..], crawlDate, today, now)
  {
    assert rs[i..][0] == rs[i] && rs[i..][1..] == rs[i + 1..];
  }

  /** The insert loop of `run_daily`: one `insert` per record, stopping at the first that raises. */
  method InsertDiscovered(store: InfoStore, found: seq<CrawledRecord>, crawlDate: string, now: string, today: Date)
    returns (err: Option<Error>)
    requires store.Valid() && ValidDate(today)
    modifies store
    ensures store.Valid()
    ensures (store.State(), err) == InsertAll(old(store.State()), found, crawlDate, today, now)
  {
    ghost var before := store.State();
    var i := 0;
    while i < |found|
      invariant 0 <= i <= |found| && store.Valid()
      invariant InsertAll(before, found, crawlDate, today, now) == InsertAll(store.State(), found[i..], crawlDate, today, now)
      decreases |found| - i
    {
      InsertAllFrom(store.State(), found, i, crawlDate, today, now);
      var res := store.Insert(RecordPatch(found[i]), Some("daily"), Str(CrawlOf(found[i], crawlDate)), now, today);
      if res.Err? {
        return Some(res.error);
      }
      i := i + 1;
    }
    assert found[i..] == [];
    return None;
  }

  /**
   * `run_daily`: the records are grouped and walked against the codes the
   * store knows; the discoveries, cut to `max_records`, are inserted one by
   * one unless `dry_run`, and an insert that raises ends the run with the
   * earlier inserts kept.
   */
  method RunDaily(store: InfoStore, records: seq<CrawledRecord>, crawlDate: string, maxRecords: int, dryRun: bool,
                  now: string, today: Date)
    returns (r: Result<DailyReport>)
    requires store.Valid() && ValidDate(today)
    modifies store
    ensures store.Valid()
    ensures dryRun ==> store.State() == old(store.State()) && r.Ok?
    ensures var known := KnownIn(old(store.State()), now);
      var found := Limit(Discover(Grouped(records), known), maxRecords);
      var w := InsertAll(old(store.State()), found, crawlDate, today, now);
      && (!dryRun ==> store.State() == w.0 && (r.Err? <==> w.1.Some?) && (r.Err? ==> r.error == w.1.value))
      && (r.Ok? ==> r.value == DailyReport(|records|, CodeList(found), |StopDepartments(Grouped(records), known)|, !dryRun))
  {
    var rows := store.IterRecords(now);
    KnownCodesOfRecords(store.State(), rows, now);
    var known := KnownCodes(rows);
    var grouped := GroupDaily(records);
    var discovered, stops := DiscoverDaily(grouped, known);
    var found := Limit(discovered, maxRecords);
    assert stops.Keys == StopDepartments(grouped, known);
    if !dryRun {
      var err := InsertDiscovered(store, found, crawlDate, now, today);
      if err.Some? {
        return Err(err.value);
      }
    }
    r := Ok(DailyReport(|records|, CodeList(found), |stops|, !dryRun));
  }
}
