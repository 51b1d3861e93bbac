/** Reading a page-range text such as "1-3,5" into zero-based page indices,
    in the two ways the tools do it: the split page keeps each page once,
    in order of first mention, and only pages the document has; the
    function library keeps every mention, duplicates and all, and takes a
    blank text to mean every page. */
module PageRanges {
  import opened Wrappers
  import opened JsText
  import opened JsSet

  /** What one comma-separated token says: a range `a-b` (both ends read
      with `parseInt`, `None` for `NaN`) or a single page number. */
  datatype Token = Span(first: Option<int>, last: Option<int>) | Single(page: Option<int>)

  /** The tokens of a range text: split on commas, each piece trimmed. */
  function Tokens(spec: string): (r: seq<string>)
    ensures |r| == |Split(spec, ",")|
    ensures forall i :: 0 <= i < |r| ==> r[i] == Trim(Split(spec, ",")[i])
  {
    var parts := Split(spec, ",");
    seq(|parts|, i requires 0 <= i < |parts| => Trim(parts[i]))
  }

  /** A token holding a hyphen is a range whose ends are the trimmed text
      before the first hyphen and between the first and second; any other
      token is a single page number. */
  function ReadToken(t: string): Token {
    if '-' in t then
      SplitCount(t, '-');
      var ends := Split(t, "-");
      Span(ParseInt(Trim(ends[0])), ParseInt(Trim(ends[1])))
    else
      Single(ParseInt(t))
  }

  /** The zero-based indices a token adds, in the order the loop adds them:
      `a-1` up to `b-1` for a range whose ends both read, nothing for a
      range with an unreadable end, and `n-1` (or `NaN`) for a single. */
  function Contribution(tok: Token): seq<Option<int>> {
    match tok
    case Span(Some(a), Some(b)) =>
      seq(if a <= b then b - a + 1 else 0, k => Some(a - 1 + k))
    case Span(_, _) => []
    case Single(n) =>
      match n
      case None => [None]
      case Some(v) => [Some(v - 1)]
  }

  /** Reference meaning of a token: whether it names zero-based page `p`. */
  predicate Names(tok: Token, p: int) {
    match tok
    case Span(Some(a), Some(b)) => a - 1 <= p <= b - 1
    case Span(_, _) => false
    case Single(n) => n == Some(p + 1)
  }

  /** Every index scanned from the tokens, token after token. */
  function Scan(toks: seq<Token>): seq<Option<int>> {
    if |toks| == 0 then []
    else Scan(toks[..|toks| - 1]) + Contribution(toks[|toks| - 1])
  }

  function ReadTokens(spec: string): (r: seq<Token>)
    ensures |r| == |Tokens(spec)|
    ensures forall i :: 0 <= i < |r| ==> r[i] == ReadToken(Tokens(spec)[i])
  {
    var toks := Tokens(spec);
    seq(|toks|, i requires 0 <= i < |toks| => ReadToken(toks[i]))
  }

  /** The indices the scan of a range text produces, before any
      de-duplication or bounds filtering. */
  function Scanned(spec: string): seq<Option<int>> {
    Scan(ReadTokens(spec))
  }

  /** Whether some token of the text names zero-based page `p`. */
  predicate Named(spec: string, p: int) {
    exists i :: 0 <= i < |ReadTokens(spec)| && Names(ReadTokens(spec)[i], p)
  }

  /** The bounds filter `p >= 0 && p < pageCount`, which `NaN` never passes. */
  function InBounds(xs: seq<Option<int>>, pageCount: int): (r: seq<int>)
    ensures forall p :: p in r <==> Some(p) in xs && 0 <= p < pageCount
    ensures forall k :: 0 <= k < |r| ==> 0 <= r[k] < pageCount
  {
    if |xs| == 0 then []
    else
      var r := InBounds(xs[..|xs| - 1], pageCount);
      var x := xs[|xs| - 1];
      assert forall y :: y in xs <==> y in xs[..|xs| - 1] || y == x by {
        assert xs == xs[..|xs| - 1] + [x];
      }
      if x.Some? && 0 <= x.value < pageCount then r + [x.value] else r
  }

  /** The reasons the split page refuses a range text. */
  datatype SplitError = NoRanges | NoValidPage {
    function Message(): string {
      match this
      case NoRanges => "Por favor, insira as páginas ou os intervalos a extrair."
      case NoValidPage => "Nenhuma página válida foi selecionada."
    }
  }

  /** The split page's selection from scanned indices: each value once in
      order of first occurrence, then only indices the document has. */
  function Select(xs: seq<Option<int>>, pageCount: int): (r: seq<int>)
    ensures forall p :: p in r <==> Some(p) in xs && 0 <= p < pageCount
    ensures forall k :: 0 <= k < |r| ==> 0 <= r[k] < pageCount
    ensures NoDuplicates(r)
  {
    InBoundsNoDuplicates(InsertionOrder(xs), pageCount);
    InBounds(InsertionOrder(xs), pageCount)
  }

  /** The pages the split page extracts from a document of `pageCount`
      pages. Only the empty text is refused before scanning; a text that
      names no page of the document is refused after. */
  function SplitPages(spec: string, pageCount: nat): (r: Result<seq<int>, SplitError>)
    ensures r == Err(NoRanges) <==> spec == ""
    ensures r.Ok? ==> |r.value| > 0 && NoDuplicates(r.value)
    ensures r.Ok? ==> forall k :: 0 <= k < |r.value| ==> 0 <= r.value[k] < pageCount
  {
    if spec == "" then Err(NoRanges)
    else
      var pages := Select(Scanned(spec), pageCount);
      if |pages| == 0 then Err(NoValidPage) else Ok(pages)
  }

  /** The pages the function library copies: every index of every token in
      token order, duplicates and out-of-range values included, or every
      page when the text is blank. */
  function KeepPages(spec: string, pageCount: nat): seq<Option<int>> {
    if Trim(spec) == "" then seq(pageCount, i => Some(i))
    else Scanned(spec)
  }

  // ---------------------------------------------------------------------
  // Lemmas

  /** Filtering a duplicate-free sequence leaves it duplicate-free. */
  lemma {:induction false} InBoundsNoDuplicates(xs: seq<Option<int>>, pageCount: int)
    requires NoDuplicates(xs)
    ensures NoDuplicates(InBounds(xs, pageCount))
  {
    if |xs| > 0 {
      var init := xs[..|xs| - 1];
      assert NoDuplicates(init) by {
        forall i, j | 0 <= i < j < |init| ensures init[i] != init[j] {
          assert init[i] == xs[i] && init[j] == xs[j];
        }
      }
      InBoundsNoDuplicates(init, pageCount);
      var x := xs[|xs| - 1];
      if x.Some? {
        assert x !in init;
      }
    }
  }

  /** A range token adds exactly the pages it names, in ascending order with
      no gaps; a single adds its one page. */
  lemma ContributionMeaning(tok: Token, p: int)
    ensures Some(p) in Contribution(tok) <==> Names(tok, p)
    ensures tok.Span? && tok.first.Some? && tok.last.Some? ==>
      forall k :: 0 <= k < |Contribution(tok)| ==> Contribution(tok)[k] == Some(tok.first.value - 1 + k)
  {
    match tok
    case Span(Some(a), Some(b)) =>
      if a - 1 <= p <= b - 1 {
        assert Contribution(tok)[p - a + 1] == Some(p);
      }
    case Span(_, _) =>
    case Single(n) =>
  }

  /** The scan holds a page exactly when some token names it. */
  lemma {:induction false} ScanMeaning(toks: seq<Token>, p: int)
    ensures Some(p) in Scan(toks) <==> exists i :: 0 <= i < |toks| && Names(toks[i], p)
    decreases |toks|
  {
    if |toks| > 0 {
      var init := toks[..|toks| - 1];
      var last := toks[|toks| - 1];
      ScanMeaning(init, p);
      ContributionMeaning(last, p);
      if exists i :: 0 <= i < |toks| && Names(toks[i], p) {
        var i :| 0 <= i < |toks| && Names(toks[i], p);
        if i < |toks| - 1 {
          assert init[i] == toks[i];
        }
      }
      if exists i :: 0 <= i < |init| && Names(init[i], p) {
        var i :| 0 <= i < |init| && Names(init[i], p);
        assert toks[i] == init[i];
      }
    }
  }

  /** The scan of a text holds a page exactly when some token names it. */
  lemma ScannedMeaning(spec: string, p: int)
    ensures Some(p) in Scanned(spec) <==> Named(spec, p)
  {
    ScanMeaning(ReadTokens(spec), p);
  }

  /** The split page extracts exactly the pages of the document that some
      well-formed token names. */
  lemma SplitPagesExact(spec: string, pageCount: nat, p: int)
    requires SplitPages(spec, pageCount).Ok?
    ensures p in SplitPages(spec, pageCount).value <==> 0 <= p < pageCount && Named(spec, p)
  {
    var xs := Scanned(spec);
    assert SplitPages(spec, pageCount).value == Select(xs, pageCount);
    ScannedMeaning(spec, p);
  }

  /** The split page refuses a non-empty text exactly when no token names a
      page of the document. */
  lemma SplitPagesNoValidPage(spec: string, pageCount: nat)
    ensures SplitPages(spec, pageCount) == Err(NoValidPage) <==>
      spec != "" && forall p :: 0 <= p < pageCount ==> !Named(spec, p)
  {
    if spec != "" {
      var pages := Select(Scanned(spec), pageCount);
      if |pages| > 0 {
        assert pages[0] in pages;
        ScannedMeaning(spec, pages[0]);
      } else {
        forall p | 0 <= p < pageCount ensures !Named(spec, p) {
          ScannedMeaning(spec, p);
          assert p !in pages;
        }
      }
    }
  }

  /** The bounds filter keeps the relative order of what it keeps. */
  lemma {:induction false} InBoundsKeepsOrder(xs: seq<Option<int>>, pageCount: int, key: Option<int> -> int)
    requires forall i, j :: 0 <= i < j < |xs| ==> key(xs[i]) < key(xs[j])
    ensures forall i, j :: 0 <= i < j < |InBounds(xs, pageCount)| ==>
      key(Some(InBounds(xs, pageCount)[i])) < key(Some(InBounds(xs, pageCount)[j]))
    decreases |xs|
  {
    if |xs| > 0 {
      var init := xs[..|xs| - 1];
      var x := xs[|xs| - 1];
      InBoundsKeepsOrder(init, pageCount, key);
      var f := InBounds(init, pageCount);
      if x.Some? && 0 <= x.value < pageCount {
        var r := f + [x.value];
        forall i, j | 0 <= i < j < |r| ensures key(Some(r[i])) < key(Some(r[j])) {
          assert r[i] == f[i] && Some(f[i]) in init;
          var a :| 0 <= a < |init| && init[a] == Some(f[i]);
          assert xs[a] == Some(f[i]);
          if j < |f| {
            assert r[j] == f[j];
          } else {
            assert key(xs[a]) < key(xs[|xs| - 1]);
          }
        }
      }
    }
  }

  /** The split page lists its pages in the order the scan first meets
      them, which is not ascending order in general. */
  lemma SplitPagesOrder(spec: string, pageCount: nat)
    requires SplitPages(spec, pageCount).Ok?
    ensures var pages := SplitPages(spec, pageCount).value;
      forall i, j :: 0 <= i < j < |pages| ==>
        Some(pages[i]) in Scanned(spec) && Some(pages[j]) in Scanned(spec) &&
        FirstIndex(Scanned(spec), Some(pages[i])) < FirstIndex(Scanned(spec), Some(pages[j]))
  {
    var xs := Scanned(spec);
    assert SplitPages(spec, pageCount).value == InBounds(InsertionOrder(xs), pageCount);
    var d := InsertionOrder(xs);
    InsertionOrderByFirstIndex(xs);
    var key := (y: Option<int>) => if y in xs then FirstIndex(xs, y) else 0;
    forall i, j | 0 <= i < j < |d| ensures key(d[i]) < key(d[j]) {
      assert d[i] in xs && d[j] in xs;
    }
    InBoundsKeepsOrder(d, pageCount, key);
    var pages := InBounds(d, pageCount);
    forall i | 0 <= i < |pages| ensures Some(pages[i]) in xs {
      assert pages[i] in pages;
    }
  }

  /** A text of nothing but white space passes the emptiness guard of the
      split page and is then refused for naming no page. */
  lemma BlankSpecNamesNothing(spec: string, pageCount: nat)
    requires spec != "" && AllSpace(spec)
    ensures SplitPages(spec, pageCount) == Err(NoValidPage)
  {
    var parts := Split(spec, ",");
    var toks := ReadTokens(spec);
    forall i | 0 <= i < |toks| ensures toks[i] == Single(None) {
      var piece := parts[i];
      assert AllSpace(piece) by {
        forall c | 0 <= c < |piece| ensures IsSpace(piece[c]) {
          PieceCharsFromText(spec, ',', i, c);
        }
      }
      assert Tokens(spec)[i] == "";
    }
    forall p | 0 <= p < pageCount ensures !Named(spec, p) {
    }
    SplitPagesNoValidPage(spec, pageCount);
  }

  /** Every character of a piece comes from the text split. */
  lemma PieceCharsFromText(s: string, c: char, i: int, k: int)
    requires 0 <= i < |Split(s, [c])| && 0 <= k < |Split(s, [c])[i]|
    ensures Split(s, [c])[i][k] in s
  {
    JoinSplit(s, [c]);
    JoinContainsPieces(Split(s, [c]), [c], i, k);
  }

  /** The joined text contains each character of each piece. */
  lemma {:induction false} JoinContainsPieces(parts: seq<string>, sep: string, i: int, k: int)
    requires 0 <= i < |parts| && 0 <= k < |parts[i]|
    ensures parts[i][k] in Join(parts, sep)
    decreases |parts|
  {
    if |parts| > 1 {
      if i == 0 {
        assert Join(parts, sep)[k] == parts[0][k];
      } else {
        JoinContainsPieces(parts[1..], sep, i - 1, k);
        var j := Join(parts[1..], sep);
        assert Join(parts, sep) == parts[0] + sep + j;
        var n :| 0 <= n < |j| && j[n] == parts[i][k];
        assert Join(parts, sep)[|parts[0]| + |sep| + n] == j[n];
      }
    }
  }

  /** The function library takes a blank text to mean every page, in order. */
  lemma KeepPagesBlank(spec: string, pageCount: nat)
    requires AllSpace(spec)
    ensures |KeepPages(spec, pageCount)| == pageCount
    ensures forall i :: 0 <= i < pageCount ==> KeepPages(spec, pageCount)[i] == Some(i)
  {
  }

  /** Scanning the tokens of two texts one after the other. */
  lemma {:induction false} ScanAppend(a: seq<Token>, b: seq<Token>)
    ensures Scan(a + b) == Scan(a) + Scan(b)
    decreases |b|
  {
    if |b| == 0 {
      assert a + b == a;
    } else {
      var ab := a + b;
      var init := b[..|b| - 1];
      var c := Contribution(b[|b| - 1]);
      assert ab[..|ab| - 1] == a + init;
      assert ab[|ab| - 1] == b[|b| - 1];
      ScanAppend(a, init);
      calc {
        Scan(ab);
        Scan(a + init) + c;
        (Scan(a) + Scan(init)) + c;
        { SeqAssoc(Scan(a), Scan(init), c); }
        Scan(a) + (Scan(init) + c);
        Scan(a) + Scan(b);
      }
    }
  }

  /** Tokens of a text joined by a comma are the tokens of each part. */
  lemma ReadTokensAppend(a: string, b: string)
    ensures ReadTokens(a + "," + b) == ReadTokens(a) + ReadTokens(b)
  {
    TokensAppend(a, b);
    MapConcat(Tokens(a), Tokens(b), ReadTokens(a + "," + b), ReadTokens(a), ReadTokens(b), ReadToken);
  }

  /** The trimmed pieces of `a + "," + b` are those of `a`, then those of
      `b`. */
  lemma TokensAppend(a: string, b: string)
    ensures Tokens(a + "," + b) == Tokens(a) + Tokens(b)
  {
    var sep: string := [','];
    assert sep == ",";
    SplitAppend(a, b, ',');
    var pa := Split(a, ",");
    var pb := Split(b, ",");
    var ps := Split(a + "," + b, ",");
    assert ps == pa + pb;
    MapConcat(pa, pb, Tokens(a + "," + b), Tokens(a), Tokens(b), Trim);
  }

  /** Mapping element by element commutes with concatenation. */
  lemma MapConcat<A, B>(xa: seq<A>, xb: seq<A>, l: seq<B>, ra: seq<B>, rb: seq<B>, f: A -> B)
    requires |l| == |xa| + |xb| && |ra| == |xa| && |rb| == |xb|
    requires forall i :: 0 <= i < |l| ==> l[i] == f((xa + xb)[i])
    requires forall i :: 0 <= i < |ra| ==> ra[i] == f(xa[i])
    requires forall i :: 0 <= i < |rb| ==> rb[i] == f(xb[i])
    ensures l == ra + rb
  {
    forall i | 0 <= i < |l| ensures l[i] == (ra + rb)[i] {
      if i < |xa| {
        assert (xa + xb)[i] == xa[i];
      } else {
        assert (xa + xb)[i] == xb[i - |xa|];
      }
    }
  }

  /** In the function library, the pages of two non-blank texts joined by a
      comma are the pages of the first followed by those of the second:
      nothing is merged, sorted or dropped. */
  lemma KeepPagesAppend(a: string, b: string, pageCount: nat)
    requires !AllSpace(a) && !AllSpace(b)
    ensures KeepPages(a + "," + b, pageCount) == KeepPages(a, pageCount) + KeepPages(b, pageCount)
  {
    var s := a + "," + b;
    assert !AllSpace(s) by {
      var i :| 0 <= i < |a| && !IsSpace(a[i]);
      assert s[i] == a[i];
    }
    assert KeepPages(s, pageCount) == Scanned(s);
    assert KeepPages(a, pageCount) == Scanned(a);
    assert KeepPages(b, pageCount) == Scanned(b);
    ReadTokensAppend(a, b);
    ScanAppend(ReadTokens(a), ReadTokens(b));
  }

  /** For a non-blank text the two readings agree on which pages of the
      document are meant; the split page just drops repeats and pages the
      document lacks. */
  lemma SplitAgreesWithKeep(spec: string, pageCount: nat, p: int)
    requires !AllSpace(spec)
    requires SplitPages(spec, pageCount).Ok?
    ensures p in SplitPages(spec, pageCount).value <==> Some(p) in KeepPages(spec, pageCount) && 0 <= p < pageCount
  {
  }

  /** A digit string holds no hyphen and no comma, and trimming leaves it. */
  lemma DigitsArePlain(ds: string)
    requires AllDigits(ds)
    ensures '-' !in ds && ',' !in ds
    ensures Trim(ds) == ds
  {
    DigitsLack(ds, '-');
    DigitsLack(ds, ',');
    DigitsTrim(ds);
  }

  /** A token with one hyphen reads as the range between its trimmed sides. */
  lemma ReadRangeText(a: string, b: string)
    requires '-' !in a && '-' !in b
    ensures ReadToken(a + "-" + b) == Span(ParseInt(Trim(a)), ParseInt(Trim(b)))
  {
    SplitTwo(a, b, '-');
    assert (a + "-" + b)[|a|] == '-';
  }

  /** The token `a-b` written in decimal reads back as the range from `a`
      to `b`. */
  lemma ReadRangeToken(a: nat, b: nat)
    ensures ReadToken(NatToDecimal(a) + "-" + NatToDecimal(b)) == Span(Some(a), Some(b))
  {
    DigitsArePlain(NatToDecimal(a));
    DigitsArePlain(NatToDecimal(b));
    ReadRangeText(NatToDecimal(a), NatToDecimal(b));
    ParseIntWhole(a);
    ParseIntWhole(b);
  }

  /** A page number written in decimal reads back as that single page. */
  lemma ReadSingleToken(n: nat)
    ensures ReadToken(NatToDecimal(n)) == Single(Some(n))
  {
    DigitsArePlain(NatToDecimal(n));
    ParseIntWhole(n);
  }

  /** The tokens of a text with no comma are that one trimmed text. */
  lemma ReadTokensOne(t: string)
    requires ',' !in t
    ensures ReadTokens(t) == [ReadToken(Trim(t))]
  {
    SplitNoSep(t, ',');
  }

  /** Two page numbers written in decimal and joined by a comma scan to the
      two zero-based pages, in the order written. */
  lemma ScannedTwoPages(a: nat, b: nat)
    ensures Scanned(NatToDecimal(a) + "," + NatToDecimal(b)) == [Some(a - 1), Some(b - 1)]
  {
    var da := NatToDecimal(a);
    var db := NatToDecimal(b);
    DigitsArePlain(da);
    DigitsArePlain(db);
    ReadTokensTwo(da, db);
    ReadSingleToken(a);
    ReadSingleToken(b);
    ScanTwoSingles(a, b);
  }

  lemma ReadTokensTwo(a: string, b: string)
    requires ',' !in a && ',' !in b && Trim(a) == a && Trim(b) == b
    ensures ReadTokens(a + "," + b) == [ReadToken(a), ReadToken(b)]
  {
    ReadTokensAppend(a, b);
    ReadTokensOne(a);
    ReadTokensOne(b);
  }

  lemma ScanTwoSingles(a: int, b: int)
    ensures Scan([Single(Some(a)), Single(Some(b))]) == [Some(a - 1), Some(b - 1)]
  {
    var toks := [Single(Some(a)), Single(Some(b))];
    assert toks[..1] == [Single(Some(a))];
    assert toks[..1][..0] == [];
    assert Scan(toks[..1]) == [Some(a - 1)];
  }

  /** The split page's selection from two scanned indices. */
  lemma SelectTwo(x: Option<int>, y: Option<int>, pageCount: int)
    requires x.Some? && y.Some? && 0 <= x.value < pageCount && 0 <= y.value < pageCount
    ensures Select([x, y], pageCount) == if x == y then [x.value] else [x.value, y.value]
  {
    if x == y {
      InsertionOrderSame(x);
      InBoundsOne(x, pageCount);
    } else {
      InsertionOrderDistinct(x, y);
      InBoundsTwo(x, y, pageCount);
    }
  }

  lemma InBoundsOne(x: Option<int>, pageCount: int)
    requires x.Some? && 0 <= x.value < pageCount
    ensures InBounds([x], pageCount) == [x.value]
  {
    assert [x][..0] == [];
  }

  lemma InBoundsTwo(x: Option<int>, y: Option<int>, pageCount: int)
    requires x.Some? && 0 <= x.value < pageCount && y.Some? && 0 <= y.value < pageCount
    ensures InBounds([x, y], pageCount) == [x.value, y.value]
  {
    var xs := [x, y];
    assert xs[..1] == [x];
    InBoundsOne(x, pageCount);
  }

  /** A later page named first is extracted first: the split page does not
      sort what it extracts. */
  lemma SplitPagesKeepsWrittenOrder(a: nat, b: nat, pageCount: nat)
    requires 1 <= b < a <= pageCount
    ensures SplitPages(NatToDecimal(a) + "," + NatToDecimal(b), pageCount) == Ok([a - 1, b - 1])
  {
    ScannedTwoPages(a, b);
    SelectTwo(Some(a - 1), Some(b - 1), pageCount);
  }

  /** A page named twice is copied twice by the function library but
      extracted once by the split page. */
  lemma RepeatedPage(n: nat, pageCount: nat)
    requires 1 <= n <= pageCount
    ensures KeepPages(NatToDecimal(n) + "," + NatToDecimal(n), pageCount) == [Some(n - 1), Some(n - 1)]
    ensures SplitPages(NatToDecimal(n) + "," + NatToDecimal(n), pageCount) == Ok([n - 1])
  {
    var d := NatToDecimal(n);
    var spec := d + "," + d;
    assert Trim(spec) != "" by {
      assert IsDigit(spec[0]);
    }
    assert Scanned(spec) == [Some(n - 1), Some(n - 1)] by {
      ScannedTwoPages(n, n);
    }
    assert Select(Scanned(spec), pageCount) == [n - 1] by {
      SelectTwo(Some(n - 1), Some(n - 1), pageCount);
    }
  }
}
