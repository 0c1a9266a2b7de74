/** The listing page: which page is asked for, which slice of the
    published properties it shows, how many pages there are, whether there
    is a previous and a next page, the "Showing a-b of total" line, and the
    list of page numbers with "..." markers. */
module Pagination {
  import opened Options
  import Decimal
  import JsString

  const PropertiesPerPage := 6

  /** How many pages on each side of the current page are listed. */
  const Delta := 2

  function Max(a: int, b: int): int { if a >= b then a else b }

  function Min(a: int, b: int): int { if a <= b then a else b }

  // ---------------------------------------------------------------------
  // The page parameter

  /** A JavaScript number, as far as the page parameter can produce one. */
  datatype JsNumber = NaN | Int(value: int)

  /** `Number(s)` on strings: surrounding white space is ignored, the empty
      string is 0, an optionally signed run of decimal digits is its value,
      anything else is NaN. */
  function ParseNumber(s: string): JsNumber
  {
    ParseTrimmed(JsString.Trim(s))
  }

  /** `Number` on a string already stripped of its surrounding white space. */
  function ParseTrimmed(t: string): JsNumber
  {
    if t == [] then Int(0)
    else if (t[0] == '-' || t[0] == '+') && |t| > 1 && Decimal.AllDigits(t[1..]) then
      var magnitude: int := Decimal.ToNat(t[1..]);
      Int(if t[0] == '-' then -magnitude else magnitude)
    else if Decimal.AllDigits(t) then Int(Decimal.ToNat(t))
    else NaN
  }

  /** `Number(page) || 1`: an absent parameter is `Number(undefined)`, which
      is NaN; NaN and 0 are falsy and give 1. */
  function CurrentPage(page: Option<string>): (r: int)
    ensures r != 0
    ensures page.None? ==> r == 1
  {
    var n := if page.None? then NaN else ParseNumber(page.value);
    if n.Int? && n.value != 0 then n.value else 1
  }

  /** How an integer is written in a URL such as `/?page=-3`. */
  function IntToString(n: int): string
  {
    if n < 0 then "-" + Decimal.FromNat(-n) else Decimal.FromNat(n)
  }

  /** A run of digits holds no white space, so `trim` leaves it alone. */
  lemma DigitsTrimmed(s: string)
    requires Decimal.AllDigits(s)
    ensures JsString.NoSpace(s) && JsString.Trim(s) == s
  {
  }

  /** `Number("")` and `Number("0")` are both 0. */
  lemma ParseZero()
    ensures ParseNumber("") == Int(0)
    ensures ParseNumber("0") == Int(0)
  {
    assert JsString.Trim("") == "";
    DigitsTrimmed("0");
    assert Decimal.ToNat("0") == 0;
  }

  /** The parameter falls back to page 1 when it is absent, empty, "0" or
      not a number at all. */
  lemma CurrentPageDefaults(s: string)
    requires ParseNumber(s) == NaN
    ensures CurrentPage(None) == 1
    ensures CurrentPage(Some("")) == 1
    ensures CurrentPage(Some("0")) == 1
    ensures CurrentPage(Some(s)) == 1
  {
    ParseZero();
  }

  /** A run of digits without white space around it is read as the number
      it writes. */
  lemma ParseTrimmedDigits(digits: string)
    requires |digits| >= 1 && Decimal.AllDigits(digits)
    ensures ParseTrimmed(digits) == Int(Decimal.ToNat(digits))
  {
    assert Decimal.IsDigit(digits[0]);
  }

  /** `Number` reads a run of digits as the number it writes. */
  lemma ParseDigits(digits: string)
    requires |digits| >= 1 && Decimal.AllDigits(digits)
    ensures ParseNumber(digits) == Int(Decimal.ToNat(digits))
  {
    DigitsTrimmed(digits);
    ParseTrimmedDigits(digits);
  }

  /** A minus sign followed by a run of digits holds no white space, so
      `trim` leaves it alone. */
  lemma NegativeTrimmed(digits: string)
    requires Decimal.AllDigits(digits)
    ensures JsString.Trim("-" + digits) == "-" + digits
  {
    var s := "-" + digits;
    assert JsString.NoSpace(s) by {
      forall i | 0 <= i < |s| ensures !JsString.IsSpace(s[i]) {
        if i > 0 {
          assert s[i] == digits[i - 1];
          assert Decimal.IsDigit(digits[i - 1]);
        }
      }
    }
  }

  /** A minus sign followed by a run of digits, without white space
      around it, is read as the negated number the digits write. */
  lemma ParseTrimmedNegative(t: string)
    requires |t| > 1 && t[0] == '-' && Decimal.AllDigits(t[1..])
    ensures ParseTrimmed(t) == Int(-(Decimal.ToNat(t[1..]) as int))
  {
  }

  /** `Number` reads a minus sign followed by a run of digits as the
      negated number the digits write. */
  lemma ParseNegative(digits: string)
    requires |digits| >= 1 && Decimal.AllDigits(digits)
    ensures ParseNumber("-" + digits) == Int(-(Decimal.ToNat(digits) as int))
  {
    var t := "-" + digits;
    NegativeTrimmed(digits);
    assert JsString.Trim(t) == t;
    assert ParseNumber(t) == ParseTrimmed(t);
    assert t[1..] == digits;
    ParseTrimmedNegative(t);
  }

  /** Any other written integer is taken as it is; in particular a negative
      page is not clamped. */
  lemma CurrentPageParses(n: int)
    requires n != 0
    ensures CurrentPage(Some(IntToString(n))) == n
  {
    var m: nat := if n < 0 then -n else n;
    Decimal.RoundTrip(m);
    if n < 0 {
      ParseNegative(Decimal.FromNat(m));
    } else {
      ParseDigits(Decimal.FromNat(m));
    }
  }

  // ---------------------------------------------------------------------
  // The window of one page

  /** Index of the first property on the page (the query's `$start`). */
  function Start(currentPage: int): int
  {
    (currentPage - 1) * PropertiesPerPage
  }

  /** Index just past the last property on the page (the query's `$end`);
      it may lie beyond the number of properties. */
  function End(currentPage: int): int
  {
    Start(currentPage) + PropertiesPerPage
  }

  /** `Math.ceil(total / 6)`. */
  function TotalPages(total: nat): (r: nat)
    ensures r == 0 <==> total == 0
    ensures total > 0 ==> (r - 1) * PropertiesPerPage < total <= r * PropertiesPerPage
  {
    (total + PropertiesPerPage - 1) / PropertiesPerPage
  }

  datatype Window = Window(
    currentPage: int,
    start: int,
    end: int,
    totalPages: nat,
    hasPrevPage: bool,
    hasNextPage: bool)

  /** Everything the page derives from its parameter and the total count. */
  function Paginate(page: Option<string>, total: nat): Window
  {
    var currentPage := CurrentPage(page);
    var totalPages := TotalPages(total);
    Window(currentPage, Start(currentPage), End(currentPage), totalPages,
           currentPage > 1, currentPage < totalPages)
  }

  /** Every window is the half-open range of six indexes, consecutive pages
      have adjacent windows, and every property index lies in the window of
      exactly one page. */
  lemma WindowsTile(currentPage: int, i: nat)
    ensures End(currentPage) - Start(currentPage) == PropertiesPerPage
    ensures End(currentPage) == Start(currentPage + 1)
    ensures Start(currentPage) <= i < End(currentPage) <==> currentPage == i / PropertiesPerPage + 1
  {
    var q := i / PropertiesPerPage;
    assert q * PropertiesPerPage <= i < (q + 1) * PropertiesPerPage;
    if currentPage <= q {
      assert End(currentPage) == currentPage * PropertiesPerPage <= q * PropertiesPerPage;
    } else if currentPage >= q + 2 {
      assert Start(currentPage) == (currentPage - 1) * PropertiesPerPage >= (q + 1) * PropertiesPerPage;
    }
  }

  /** There is a previous page exactly when the window does not start at the
      first property, and a next page exactly when some property lies beyond
      the window. */
  lemma NavigationFlags(page: Option<string>, total: nat)
    ensures Paginate(page, total).hasPrevPage <==> Paginate(page, total).start > 0
    ensures Paginate(page, total).hasNextPage <==> Paginate(page, total).end < total
  {
    var w := Paginate(page, total);
    var cp, tp := w.currentPage, w.totalPages;
    if cp < tp {
      assert cp * PropertiesPerPage <= (tp - 1) * PropertiesPerPage;
    } else if total > 0 {
      assert cp * PropertiesPerPage >= tp * PropertiesPerPage;
    }
  }

  /** With six properties there is exactly one page, and from it neither a
      previous nor a next page. */
  lemma SixPropertiesOnePage()
    ensures Paginate(None, 6).totalPages == 1
    ensures !Paginate(None, 6).hasPrevPage && !Paginate(None, 6).hasNextPage
  {
  }

  // ---------------------------------------------------------------------
  // "Showing a-b of total"

  /** The two numbers of the "Showing" line, given how many properties the
      page's query returned. */
  function ShownRange(w: Window, total: nat, returned: nat): (int, int)
  {
    (if returned > 0 then w.start + 1 else 0, Min(w.end, total))
  }

  /** When the query returns the slice `[start, end)` of the ordered
      published properties, the "Showing" line names exactly the properties
      shown, counting from 1; on a page past the last one it reads
      "0-total". The upper number never exceeds the total. */
  lemma ShownRangeOfQuery<T>(page: Option<string>, items: seq<T>)
    requires CurrentPage(page) >= 1
    ensures var w := Paginate(page, |items|);
            var results := items[Min(w.start, |items|)..Min(w.end, |items|)];
            var (lo, hi) := ShownRange(w, |items|, |results|);
            && hi <= |items|
            && (|results| > 0 <==> w.start < |items|)
            && (|results| > 0 ==> 1 <= lo <= hi && results == items[lo - 1..hi])
            && (|results| == 0 ==> lo == 0 && hi == |items|)
  {
  }

  // ---------------------------------------------------------------------
  // Page numbers with markers

  datatype PageItem = Page(n: int) | Dots

  /** The pages `lo` to `hi`, in order. */
  function Interval(lo: int, hi: int): seq<PageItem>
  {
    seq(if lo <= hi then hi - lo + 1 else 0, k => Page(lo + k))
  }

  /** The list the page renders: page 1 and a marker before the window of
      neighbours when they are not adjacent to it, the window, and a marker
      and the last page after it. */
  function PageList(currentPage: int, totalPages: int): seq<PageItem>
  {
    var first := Max(1, currentPage - Delta);
    var last := Min(totalPages, currentPage + Delta);
    (if first > 1 then [Page(1)] + (if first > 2 then [Dots] else []) else [])
    + Interval(first, last)
    + (if last < totalPages then (if last < totalPages - 1 then [Dots] else []) + [Page(totalPages)] else [])
  }

  /** `getPaginationNumbers`: the window is collected by a loop, then the
      first page, the markers and the last page are pushed around it. */
  method PaginationNumbers(currentPage: int, totalPages: int) returns (rangeWithDots: seq<PageItem>)
    ensures rangeWithDots == PageList(currentPage, totalPages)
  {
    var start := Max(1, currentPage - Delta);
    var end := Min(totalPages, currentPage + Delta);
    var range: seq<PageItem> := [];
    var i := start;
    while i <= end
      invariant start <= i <= Max(start, end + 1)
      invariant range == Interval(start, i - 1)
    {
      range := range + [Page(i)];
      i := i + 1;
    }
    rangeWithDots := [];
    if start > 1 {
      rangeWithDots := rangeWithDots + [Page(1)];
      if start > 2 {
        rangeWithDots := rangeWithDots + [Dots];
      }
    }
    rangeWithDots := rangeWithDots + range;
    if end < totalPages {
      if end < totalPages - 1 {
        rangeWithDots := rangeWithDots + [Dots];
      }
      rangeWithDots := rangeWithDots + [Page(totalPages)];
    }
  }

  /** Where each part of the list sits, for a current page within range:
      `a` entries before the window (page 1, then a marker), the window of
      `m` pages, and after it a marker and the last page. */
  lemma PageListLayout(currentPage: int, totalPages: int) returns (first: int, last: int, a: nat, m: nat)
    requires 1 <= currentPage <= totalPages
    ensures first == Max(1, currentPage - Delta) && last == Min(totalPages, currentPage + Delta)
    ensures first <= currentPage <= last && m == last - first + 1
    ensures a == (if first > 1 then 1 else 0) + (if first > 2 then 1 else 0)
    ensures var r := PageList(currentPage, totalPages);
            && |r| == a + m + (if last < totalPages then 1 else 0) + (if last < totalPages - 1 then 1 else 0)
            && (a >= 1 ==> r[0] == Page(1))
            && (a == 2 ==> r[1] == Dots)
            && (forall i :: a <= i < a + m ==> r[i] == Page(first + i - a))
            && (last < totalPages - 1 ==> r[a + m] == Dots)
            && (last < totalPages ==> r[|r| - 1] == Page(totalPages))
  {
    first := Max(1, currentPage - Delta);
    last := Min(totalPages, currentPage + Delta);
    a := (if first > 1 then 1 else 0) + (if first > 2 then 1 else 0);
    m := last - first + 1;
    var before := if first > 1 then [Page(1)] + (if first > 2 then [Dots] else []) else [];
    var window := Interval(first, last);
    var after := if last < totalPages then (if last < totalPages - 1 then [Dots] else []) + [Page(totalPages)] else [];
    var r := PageList(currentPage, totalPages);
    assert r == before + window + after;
    assert |before| == a && |window| == m;
    forall i | a <= i < a + m ensures r[i] == Page(first + i - a) {
      assert r[i] == window[i - a];
    }
    if last < totalPages - 1 {
      assert r[a + m] == after[0];
    }
  }

  /** What stands at one index of the list: page 1 first, the window, or
      the last page last; anything else is a marker. */
  lemma PageListAt(currentPage: int, totalPages: int, i: int)
    requires 1 <= currentPage <= totalPages
    requires 0 <= i < |PageList(currentPage, totalPages)|
    ensures var r := PageList(currentPage, totalPages);
            var first := Max(1, currentPage - Delta);
            var last := Min(totalPages, currentPage + Delta);
            var a := (if first > 1 then 1 else 0) + (if first > 2 then 1 else 0);
            var m := last - first + 1;
            && (i == 0 && a >= 1 ==> r[i] == Page(1))
            && (i == 1 && a == 2 ==> r[i] == Dots)
            && (a <= i < a + m ==> r[i] == Page(first + i - a))
            && (i == a + m && last < totalPages - 1 ==> r[i] == Dots)
            && (i == |r| - 1 && last < totalPages ==> r[i] == Page(totalPages))
            && (i < a || a + m <= i ==>
                  (i == 0 && a >= 1) || (i == 1 && a == 2) || (i == a + m && last < totalPages - 1)
                  || (i == |r| - 1 && last < totalPages))
  {
    var first, last, a, m := PageListLayout(currentPage, totalPages);
  }

  /** For a current page within range the list starts with page 1, ends
      with the last page and has at most nine entries. */
  lemma PageListEnds(currentPage: int, totalPages: int)
    requires 1 <= currentPage <= totalPages
    ensures var r := PageList(currentPage, totalPages);
            && 1 <= |r| <= 9
            && r[0] == Page(1) && r[|r| - 1] == Page(totalPages)
  {
    var first, last, a, m := PageListLayout(currentPage, totalPages);
  }

  /** The page numbers of the list strictly increase from left to right. */
  lemma PageListIncreasing(currentPage: int, totalPages: int)
    requires 1 <= currentPage <= totalPages
    ensures var r := PageList(currentPage, totalPages);
            forall i, j :: 0 <= i < j < |r| && r[i].Page? && r[j].Page? ==> r[i].n < r[j].n
  {
    var r := PageList(currentPage, totalPages);
    forall i, j | 0 <= i < j < |r| && r[i].Page? && r[j].Page? ensures r[i].n < r[j].n {
      PageListAt(currentPage, totalPages, i);
      PageListAt(currentPage, totalPages, j);
    }
  }

  /** The list holds exactly page 1, the last page and every page within
      two of the current one. */
  lemma PageListMembers(currentPage: int, totalPages: int, p: int)
    requires 1 <= currentPage <= totalPages
    ensures Page(p) in PageList(currentPage, totalPages) <==>
            1 <= p <= totalPages
            && (p == 1 || p == totalPages || currentPage - Delta <= p <= currentPage + Delta)
  {
    var first, last, a, m := PageListLayout(currentPage, totalPages);
    var r := PageList(currentPage, totalPages);
    if Page(p) in r {
      var i :| 0 <= i < |r| && r[i] == Page(p);
      PageListAt(currentPage, totalPages, i);
    }
    if 1 <= p <= totalPages && (p == 1 || p == totalPages || currentPage - Delta <= p <= currentPage + Delta) {
      if first <= p <= last {
        assert r[a + p - first] == Page(p);
      } else if p == 1 {
        assert r[0] == Page(1);
      } else {
        assert r[|r| - 1] == Page(totalPages);
      }
    }
  }

  /** A marker stands only strictly inside the list, between two page
      numbers more than one apart; two page numbers side by side are
      consecutive. So a marker stands exactly where pages are skipped. */
  lemma PageListGaps(currentPage: int, totalPages: int, i: int)
    requires 1 <= currentPage <= totalPages
    requires 0 <= i < |PageList(currentPage, totalPages)|
    ensures var r := PageList(currentPage, totalPages);
            && (r[i].Dots? ==>
                  0 < i < |r| - 1 && r[i - 1].Page? && r[i + 1].Page? && r[i + 1].n - r[i - 1].n > 1)
            && (i + 1 < |r| && r[i].Page? && r[i + 1].Page? ==> r[i + 1].n == r[i].n + 1)
  {
    PageListAt(currentPage, totalPages, i);
    if i > 0 {
      PageListAt(currentPage, totalPages, i - 1);
    }
    if i + 1 < |PageList(currentPage, totalPages)| {
      PageListAt(currentPage, totalPages, i + 1);
    }
  }

  /** With no published properties there are no pages and no numbers. */
  lemma NoPagesExample()
    ensures Paginate(None, 0).totalPages == 0
    ensures PageList(1, 0) == []
  {
  }

  /** A single page lists only itself. */
  lemma OnePageExample()
    ensures PageList(1, 1) == [Page(1)]
  {
  }

  /** Page 5 of 20: page 1, a marker, pages 3 to 7, a marker, page 20. */
  lemma MiddlePageExample()
    ensures PageList(5, 20) == [Page(1), Dots, Page(3), Page(4), Page(5), Page(6), Page(7), Dots, Page(20)]
  {
  }

  /** The last of ten pages: page 1, a marker and the three pages up to 10. */
  lemma LastPageExample()
    ensures PageList(10, 10) == [Page(1), Dots, Page(8), Page(9), Page(10)]
  {
  }

  /** Even with only five pages, page 1 skips page 4 behind a marker. */
  lemma FivePagesExample()
    ensures PageList(1, 5) == [Page(1), Page(2), Page(3), Dots, Page(5)]
  {
  }

  /** Up to four pages are all listed, without a marker, whatever page
      within range is current. */
  lemma FewPagesAllListed(currentPage: int, totalPages: int)
    requires 1 <= currentPage <= totalPages <= 4
    ensures PageList(currentPage, totalPages) == Interval(1, totalPages)
  {
    var first, last, a, m := PageListLayout(currentPage, totalPages);
    var r := PageList(currentPage, totalPages);
    forall i | 0 <= i < |r| ensures r[i] == Page(1 + i) {
      PageListAt(currentPage, totalPages, i);
    }
  }

  /** A current page beyond the last one (a hand-written `?page=100` with
      three pages) leaves the window empty: the list is page 1 followed by a
      marker and nothing else. */
  lemma PastLastPageExample()
    ensures PageList(100, 3) == [Page(1), Dots]
  {
  }
}
