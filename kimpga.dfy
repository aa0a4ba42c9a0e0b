/**
 * The post-processing half of the KIMPGA top-coins scraper. The HTML has
 * already been reduced to strings: the header and cell texts of each table,
 * the text of each card-like element, and for each coin image its `alt`
 * text, the texts of the spans beside it, the price and change cells found
 * in its row, and the row's text. What is modelled is how those strings
 * become result entries: which tables count, how a row's columns map to
 * fields, how a card splits into name and price, which span names the coin,
 * how repeated symbols are dropped and ranks filled in, the `top_n` caps, and
 * the order in which the parsers are tried.
 */
module KimpgaTop20 {
  import opened Wrappers
  import opened Text

  /** A dictionary key: absent, present with `None`, or present with a value. */
  datatype Field<T> = Missing | Null | Has(value: T)

  /** The `raw` value of an entry: a list of strings, or a single text. */
  datatype Raw = Strings(items: seq<string>) | Joined(text: string)

  /** One result dictionary. */
  datatype Entry = Entry(
    rank: Field<int>,
    symbol: Field<string>,
    name: Field<string>,
    price: Field<string>,
    change: Field<string>,
    raw: Raw)

  /** A table: its header-cell texts and the cell texts of each body row. */
  datatype Table = Table(headers: seq<string>, rows: seq<seq<string>>)

  /** A coin image: its `alt` text, the span texts of its parent element, the
      price and change texts picked from its row, and the text of its row. */
  datatype Img = Img(alt: string, spans: seq<string>, price: Option<string>, change: Option<string>, context: string)

  /** The page as the parsers see it; `None` when no page source was obtained. */
  datatype Page = Page(tables: seq<Table>, cards: seq<string>)

  /** Python's `s[:n]`, where a negative `n` counts back from the end. */
  function Take<T>(s: seq<T>, n: int): (r: seq<T>)
    ensures |r| <= |s| && r == s[..|r|]
    ensures n >= 0 ==> |r| == if n < |s| then n else |s|
    ensures n < 0 ==> |r| == if |s| + n > 0 then |s| + n else 0
  {
    if n >= 0 then (if n < |s| then s[..n] else s)
    else (if |s| + n > 0 then s[..|s| + n] else [])
  }

  /** The first `n` elements, or all of them when there are fewer, and none for `n <= 0`. */
  function Prefix<T>(s: seq<T>, n: int): (r: seq<T>)
    ensures |r| == if n <= 0 then 0 else if n < |s| then n else |s|
    ensures r == s[..|r|]
  {
    if n <= 0 then [] else if n < |s| then s[..n] else s
  }

  lemma TakeOfPrefix<T>(s: seq<T>, n: int)
    ensures Take(Prefix(s, n), n) == Prefix(s, n)
  {
  }

  /** Extending a sequence does not change a prefix it already covers. */
  lemma PrefixOfExtension<T>(a: seq<T>, b: seq<T>, n: int)
    requires n <= |a|
    ensures Prefix(a + b, n) == Prefix(a, n)
  {
  }

  /** How an optional text becomes a dictionary value. */
  function FieldOf(o: Option<string>): Field<string>
  {
    match o
    case None => Null
    case Some(v) => Has(v)
  }

  // ---------------------------------------------------------------- tables

  const TABLE_KEYWORDS: seq<string> := ["코인", "coin", "price", "가격", "변동", "change"]

  /** A table is a candidate when its joined, lower-cased header text contains a keyword. */
  predicate HeaderMatches(headers: seq<string>)
    ensures HeaderMatches(headers) ==> headers != []
  {
    var text := Lower(Join(headers, " "));
    exists k | 0 <= k < |TABLE_KEYWORDS| :: Occurs(TABLE_KEYWORDS[k], text)
  }

  /** The entry built from one non-empty row of cell texts. The row is kept
      whole as `raw`; the symbol is never set; the name, price and change keys
      are filled from left to right, so a later one is present only with the
      earlier ones. */
  function MapRow(cols: seq<string>): (e: Entry)
    ensures e.raw == Strings(cols) && e.symbol == Missing
    ensures e.rank != Missing && (e.rank.Has? ==> |cols| > 0 && e.rank.value >= 0)
    ensures e.rank.Has? <==> |cols| > 0 && IsDigits(cols[0])
    ensures e.rank.Has? ==> e.rank.value == DigitsValue(cols[0])
    ensures e.name.Has? <==> |cols| >= 2
    ensures e.price.Has? <==> |cols| >= 3
    ensures e.change.Has? <==> |cols| >= 4
    ensures e.name.Has? ==> e.name.value == cols[1]
    ensures e.price.Has? ==> e.price.value == cols[2]
    ensures e.change.Has? ==> e.change.value == cols[3]
    ensures e.change.Has? ==> e.price.Has?
    ensures e.price.Has? ==> e.name.Has?
  {
    Entry(
      if |cols| > 0 && IsDigits(cols[0]) then Has(DigitsValue(cols[0])) else Null,
      Missing,
      if |cols| >= 2 then Has(cols[1]) else Missing,
      if |cols| >= 3 then Has(cols[2]) else Missing,
      if |cols| >= 4 then Has(cols[3]) else Missing,
      Strings(cols))
  }

  /** A row written out from a rank, a name, a price and a change, followed by
      any further cells, reads back into exactly those fields. */
  lemma MapRowReadsFields(n: nat, name: string, price: string, change: string, rest: seq<string>)
    ensures var cols := [Decimal(n), name, price, change] + rest;
      MapRow(cols) == Entry(Has(n), Missing, Has(name), Has(price), Has(change), Strings(cols))
  {
    DecimalRoundTrip(n);
  }

  /** A row of one to three cells whose first cell is not all digits has no
      rank, and carries exactly the keys its cells reach. */
  lemma MapRowReadsShortRow(first: string, later: seq<string>)
    requires !IsDigits(first) && |later| <= 2
    ensures var cols := [first] + later; var e := MapRow(cols);
      && e.rank == Null && e.change == Missing
      && (if |later| == 0 then e.name == Missing else e.name == Has(later[0]))
      && (if |later| <= 1 then e.price == Missing else e.price == Has(later[1]))
  {
  }

  /** A row whose first cell is the decimal form of `n` is ranked `n`. */
  lemma MapRowReadsRank(n: nat, rest: seq<string>)
    ensures MapRow([Decimal(n)] + rest).rank == Has(n)
  {
    DecimalRoundTrip(n);
  }

  /** The entries of the non-empty rows, in row order. */
  function RowEntries(rows: seq<seq<string>>): (es: seq<Entry>)
    ensures |es| <= |rows|
  {
    if rows == [] then [] else
      var last := rows[|rows| - 1];
      RowEntries(rows[..|rows| - 1]) + (if last == [] then [] else [MapRow(last)])
  }

  lemma {:induction false} RowEntriesAppend(a: seq<seq<string>>, b: seq<seq<string>>)
    ensures RowEntries(a + b) == RowEntries(a) + RowEntries(b)
    decreases |b|
  {
    if b == [] {
      assert a + b == a;
    } else {
      var init := b[..|b| - 1];
      assert (a + b)[..|a + b| - 1] == a + init;
      RowEntriesAppend(a, init);
    }
  }

  /** Every row entry comes from a non-empty row. */
  lemma {:induction false} RowEntriesFromRows(rows: seq<seq<string>>)
    ensures forall e :: e in RowEntries(rows) ==> exists row :: row in rows && row != [] && e == MapRow(row)
  {
    if rows != [] {
      var init := rows[..|rows| - 1];
      RowEntriesFromRows(init);
      forall e | e in RowEntries(rows) ensures exists row :: row in rows && row != [] && e == MapRow(row) {
        if e in RowEntries(init) {
          var row :| row in init && row != [] && e == MapRow(row);
          assert row in rows;
        } else {
          assert rows[|rows| - 1] in rows;
        }
      }
    }
  }

  /** What `try_parse_table` returns: the first candidate table that yields a
      row decides, and contributes its first `topN` non-empty rows. */
  function ParseTable(tables: seq<Table>, topN: int): (r: seq<Entry>)
    ensures |r| <= (if topN > 0 then topN else 0)
  {
    if tables == [] then [] else
      var found := Prefix(RowEntries(tables[0].rows), topN);
      if HeaderMatches(tables[0].headers) && found != [] then Take(found, topN)
      else ParseTable(tables[1..], topN)
  }

  /** The row loop of `try_parse_table` for one candidate table, starting
      from an empty result: skip empty rows, stop once `topN` entries are in. */
  method CollectRows(rows: seq<seq<string>>, topN: int) returns (results: seq<Entry>)
    ensures results == Prefix(RowEntries(rows), topN)
  {
    results := [];
    var r := 0;
    while r < |rows|
      invariant 0 <= r <= |rows|
      invariant results == RowEntries(rows[..r])
      invariant r == 0 || |results| <= topN
    {
      if |results| >= topN {
        break;
      }
      var cols := rows[r];
      RowEntriesStep(rows, r);
      r := r + 1;
      if cols == [] {
        continue;
      }
      results := results + [MapRow(cols)];
    }
    RowEntriesStop(rows, r, topN);
  }

  lemma RowEntriesStep(rows: seq<seq<string>>, r: int)
    requires 0 <= r < |rows|
    ensures RowEntries(rows[..r + 1]) == RowEntries(rows[..r]) + (if rows[r] == [] then [] else [MapRow(rows[r])])
  {
    assert rows[..r + 1][..r] == rows[..r];
  }

  /** Wherever the row loop stops, the entries so far are the capped entries of all rows. */
  lemma RowEntriesStop(rows: seq<seq<string>>, r: int, topN: int)
    requires 0 <= r <= |rows|
    requires r == 0 || |RowEntries(rows[..r])| <= topN
    requires r < |rows| ==> |RowEntries(rows[..r])| >= topN
    ensures RowEntries(rows[..r]) == Prefix(RowEntries(rows), topN)
  {
    var done := RowEntries(rows[..r]);
    assert rows == rows[..r] + rows[r..];
    RowEntriesAppend(rows[..r], rows[r..]);
    if r < |rows| {
      PrefixOfExtension(done, RowEntries(rows[r..]), topN);
    } else {
      assert rows[..r] == rows;
    }
  }

  /** `try_parse_table` */
  method TryParseTable(tables: seq<Table>, topN: int) returns (results: seq<Entry>)
    ensures results == ParseTable(tables, topN)
  {
    var t := 0;
    while t < |tables|
      invariant 0 <= t <= |tables|
      invariant ParseTable(tables, topN) == ParseTable(tables[t..], topN)
    {
      var table := tables[t];
      ParseTableStep(tables, t, topN);
      if HeaderMatches(table.headers) {
        var found := CollectRows(table.rows, topN);
        if found != [] {
          return Take(found, topN);
        }
      }
      t := t + 1;
    }
    return [];
  }

  lemma ParseTableStep(tables: seq<Table>, t: int, topN: int)
    requires 0 <= t < |tables|
    ensures var found := Prefix(RowEntries(tables[t].rows), topN);
      ParseTable(tables[t..], topN)
      == if HeaderMatches(tables[t].headers) && found != [] then Take(found, topN) else ParseTable(tables[t + 1..], topN)
  {
    assert tables[t..][0] == tables[t];
    assert tables[t..][1..] == tables[t + 1..];
  }

  /** The table parser never returns more than `topN` entries, and each one is a
      mapped non-empty row of a candidate table. */
  lemma {:induction false} ParseTableSpec(tables: seq<Table>, topN: int)
    ensures var r := ParseTable(tables, topN);
      && |r| <= (if topN > 0 then topN else 0)
      && forall e :: e in r ==>
           exists t, row :: t in tables && HeaderMatches(t.headers) && row in t.rows && row != [] && e == MapRow(row)
  {
    if tables != [] {
      var found := Prefix(RowEntries(tables[0].rows), topN);
      if HeaderMatches(tables[0].headers) && found != [] {
        RowEntriesFromRows(tables[0].rows);
        assert tables[0] in tables;
        forall e | e in ParseTable(tables, topN)
          ensures exists t, row :: t in tables && HeaderMatches(t.headers) && row in t.rows && row != [] && e == MapRow(row)
        {
          assert e in found;
          assert e in RowEntries(tables[0].rows);
          var row :| row in tables[0].rows && row != [] && e == MapRow(row);
        }
      } else {
        ParseTableSpec(tables[1..], topN);
        forall e | e in ParseTable(tables, topN)
          ensures exists t, row :: t in tables && HeaderMatches(t.headers) && row in t.rows && row != [] && e == MapRow(row)
        {
          var t, row :| t in tables[1..] && HeaderMatches(t.headers) && row in t.rows && row != [] && e == MapRow(row);
          assert t in tables;
        }
      }
    }
  }

  // ----------------------------------------------------------------- cards

  const CARD_KEYWORDS: seq<string> := ["BTC", "ETH", "코인", "가격", "원", "KRW", "USD"]

  predicate CardMatches(text: string)
  {
    exists k | 0 <= k < |CARD_KEYWORDS| :: Occurs(CARD_KEYWORDS[k], text)
  }

  /** The entry of a card: its whitespace tokens, the first taken as the name
      and the second as the price. */
  function CardEntry(text: string): (e: Entry)
    ensures var parts := Split(text);
      && e.raw == Strings(parts)
      && e.rank == Missing && e.symbol == Missing && e.change == Missing
      && (e.name.Has? <==> |parts| >= 1) && (!e.name.Has? ==> e.name == Missing)
      && (e.price.Has? <==> |parts| >= 2) && (!e.price.Has? ==> e.price == Missing)
      && (e.name.Has? ==> e.name.value == parts[0])
      && (e.price.Has? ==> e.price.value == parts[1])
  {
    var parts := Split(text);
    Entry(Missing, Missing,
      if |parts| >= 1 then Has(parts[0]) else Missing,
      if |parts| >= 2 then Has(parts[1]) else Missing,
      Missing, Strings(parts))
  }

  /** A card's name and price are its first two words, whatever the spacing. */
  lemma CardEntryOfWords(name: string, price: string, rest: seq<string>)
    requires name != [] && NoSpace(name) && price != [] && NoSpace(price)
    requires forall k :: 0 <= k < |rest| ==> rest[k] != [] && NoSpace(rest[k])
    ensures var e := CardEntry(Join([name, price] + rest, " "));
      e.name == Has(name) && e.price == Has(price)
  {
    var words := [name, price] + rest;
    SplitJoinRoundTrip(words);
    assert Split(Join(words, " ")) == words;
    assert words[0] == name && words[1] == price;
  }

  /** The entries of the cards that mention a keyword, in order. */
  function CardEntries(texts: seq<string>): (es: seq<Entry>)
    ensures |es| <= |texts|
  {
    if texts == [] then [] else
      var last := texts[|texts| - 1];
      CardEntries(texts[..|texts| - 1]) + (if CardMatches(last) then [CardEntry(last)] else [])
  }

  lemma {:induction false} CardEntriesAppend(a: seq<string>, b: seq<string>)
    ensures CardEntries(a + b) == CardEntries(a) + CardEntries(b)
    decreases |b|
  {
    if b == [] {
      assert a + b == a;
    } else {
      var init := b[..|b| - 1];
      assert (a + b)[..|a + b| - 1] == a + init;
      CardEntriesAppend(a, init);
    }
  }

  /** `try_parse_cards`: keep the cards that mention a keyword, checking the cap
      after each card, then slice to `topN`. */
  method TryParseCards(texts: seq<string>, topN: int) returns (results: seq<Entry>)
    ensures results == Prefix(CardEntries(texts), topN)
  {
    var found: seq<Entry> := [];
    var i := 0;
    while i < |texts|
      invariant 0 <= i <= |texts|
      invariant found == CardEntries(texts[..i])
      invariant i == 0 || |found| < topN
    {
      var text := texts[i];
      CardEntriesStep(texts, i);
      if CardMatches(text) {
        found := found + [CardEntry(text)];
      }
      i := i + 1;
      if |found| >= topN {
        break;
      }
    }
    CardEntriesStop(texts, i, topN);
    results := Take(found, topN);
  }

  lemma CardEntriesStep(texts: seq<string>, i: int)
    requires 0 <= i < |texts|
    ensures CardEntries(texts[..i + 1]) == CardEntries(texts[..i]) + (if CardMatches(texts[i]) then [CardEntry(texts[i])] else [])
  {
    assert texts[..i + 1][..i] == texts[..i];
  }

  /** Wherever the card loop stops, slicing what it found gives the capped
      entries of all cards. */
  lemma CardEntriesStop(texts: seq<string>, i: int, topN: int)
    requires 0 <= i <= |texts|
    requires |CardEntries(texts[..i])| <= 1 || |CardEntries(texts[..i])| <= topN
    requires i < |texts| ==> |CardEntries(texts[..i])| >= topN
    ensures Take(CardEntries(texts[..i]), topN) == Prefix(CardEntries(texts), topN)
  {
    var found := CardEntries(texts[..i]);
    assert texts == texts[..i] + texts[i..];
    CardEntriesAppend(texts[..i], texts[i..]);
    if i < |texts| {
      PrefixOfExtension(found, CardEntries(texts[i..]), topN);
    } else {
      assert texts[..i] == texts;
    }
  }

  // --------------------------------------------------------- coin images

  /** A span text names the coin unless it is empty, repeats the symbol in
      another case, or is a short all-capitals label. */
  predicate NameCandidate(txt: string, symbol: string)
  {
    txt != "" && Upper(txt) != Upper(symbol) && !(|txt| <= 4 && IsUpper(txt))
  }

  /** The first span text that names the coin, if any. */
  function SpanName(spans: seq<string>, symbol: string): (name: Option<string>)
    ensures name.Some? ==> name.value in spans && NameCandidate(name.value, symbol)
  {
    if spans == [] then None
    else if NameCandidate(spans[0], symbol) then Some(spans[0])
    else SpanName(spans[1..], symbol)
  }

  /** The chosen name is the first candidate span, and there is none only when
      no span is a candidate. */
  lemma {:induction false} SpanNameIsFirst(spans: seq<string>, symbol: string)
    ensures SpanName(spans, symbol).None? <==> forall k :: 0 <= k < |spans| ==> !NameCandidate(spans[k], symbol)
    ensures SpanName(spans, symbol).Some? ==>
      exists k :: 0 <= k < |spans| && spans[k] == SpanName(spans, symbol).value
        && NameCandidate(spans[k], symbol)
        && forall j :: 0 <= j < k ==> !NameCandidate(spans[j], symbol)
  {
    if spans != [] && !NameCandidate(spans[0], symbol) {
      var tail := spans[1..];
      SpanNameIsFirst(tail, symbol);
      assert SpanName(spans, symbol) == SpanName(tail, symbol);
      if SpanName(tail, symbol).None? {
        forall k | 0 <= k < |spans| ensures !NameCandidate(spans[k], symbol) {
          if k > 0 {
            assert spans[k] == tail[k - 1];
          }
        }
      } else {
        var k :| 0 <= k < |tail| && tail[k] == SpanName(tail, symbol).value
          && NameCandidate(tail[k], symbol)
          && forall j :: 0 <= j < k ==> !NameCandidate(tail[j], symbol);
        forall j | 0 <= j < k + 1 ensures !NameCandidate(spans[j], symbol) {
          if j > 0 {
            assert spans[j] == tail[j - 1];
          }
        }
        assert spans[k + 1] == tail[k];
      }
    }
  }

  /** The symbol is compared without regard to case: symbols that agree once
      lower-cased pick the same span. */
  lemma {:induction false} SpanNameIgnoresSymbolCase(spans: seq<string>, a: string, b: string)
    requires Lower(a) == Lower(b)
    ensures SpanName(spans, a) == SpanName(spans, b)
  {
    CaseFoldingAgrees(a, b);
    if spans != [] {
      SpanNameIgnoresSymbolCase(spans[1..], a, b);
    }
  }

  /** The short-label test only rejects texts of at most four characters: an
      all-capitals text that is longer, and is not the symbol in capitals,
      names the coin. */
  lemma LongCapitalsNameTheCoin(txt: string, symbol: string)
    requires IsUpper(txt) && |txt| > 4 && txt != Upper(symbol)
    ensures NameCandidate(txt, symbol)
  {
    IsUpperFixed(txt);
  }

  /** The span loop of `try_parse_kimpga`. */
  method ChooseName(spans: seq<string>, symbol: string) returns (name: Option<string>)
    ensures name == SpanName(spans, symbol)
  {
    name := None;
    var i := 0;
    while i < |spans|
      invariant 0 <= i <= |spans|
      invariant SpanName(spans, symbol) == SpanName(spans[i..], symbol)
    {
      var txt := spans[i];
      assert spans[i..][1..] == spans[i + 1..];
      i := i + 1;
      if txt == "" {
        continue;
      }
      if Upper(txt) == Upper(symbol) {
        continue;
      }
      if |txt| <= 4 && IsUpper(txt) {
        continue;
      }
      name := Some(txt);
      break;
    }
  }

  /** The entry for an image with a non-empty symbol. */
  function ImgEntry(img: Img): (e: Entry)
    ensures e.rank == Missing && e.symbol == Has(Strip(img.alt))
    ensures e.name.Has? ==> e.name.value in img.spans && Upper(e.name.value) != Upper(Strip(img.alt))
  {
    var symbol := Strip(img.alt);
    var name := SpanName(img.spans, symbol);
    Entry(Missing, Has(symbol), if name.Some? then Has(name.value) else Null,
      FieldOf(img.price), FieldOf(img.change), Joined(img.context))
  }

  /** The entries of the images whose stripped `alt` is not empty, in order. */
  function ImgEntries(imgs: seq<Img>): (es: seq<Entry>)
    ensures |es| <= |imgs|
  {
    if imgs == [] then [] else
      var last := imgs[|imgs| - 1];
      ImgEntries(imgs[..|imgs| - 1]) + (if Strip(last.alt) == "" then [] else [ImgEntry(last)])
  }

  /** Every image entry carries a non-empty symbol and no rank yet. */
  lemma {:induction false} ImgEntriesHaveSymbols(imgs: seq<Img>)
    ensures forall e :: e in ImgEntries(imgs) ==> e.symbol.Has? && e.symbol.value != "" && e.rank == Missing
  {
    if imgs != [] {
      ImgEntriesHaveSymbols(imgs[..|imgs| - 1]);
    }
  }

  lemma {:induction false} ImgEntriesAppend(a: seq<Img>, b: seq<Img>)
    ensures ImgEntries(a + b) == ImgEntries(a) + ImgEntries(b)
    decreases |b|
  {
    if b == [] {
      assert a + b == a;
    } else {
      var init := b[..|b| - 1];
      assert (a + b)[..|a + b| - 1] == a + init;
      ImgEntriesAppend(a, init);
    }
  }

  /** The image loop of `try_parse_kimpga`: stop once `topN` entries are in,
      skip images with an empty symbol. */
  method CollectImages(imgs: seq<Img>, topN: int) returns (results: seq<Entry>)
    ensures results == Prefix(ImgEntries(imgs), topN)
  {
    results := [];
    var i := 0;
    while i < |imgs|
      invariant 0 <= i <= |imgs|
      invariant results == ImgEntries(imgs[..i])
      invariant i == 0 || |results| <= topN
    {
      if |results| >= topN {
        break;
      }
      var img := imgs[i];
      ImgEntriesStep(imgs, i);
      i := i + 1;
      var symbol := Strip(img.alt);
      if symbol == "" {
        continue;
      }
      var name := ChooseName(img.spans, symbol);
      var entry := Entry(Missing, Has(symbol), if name.Some? then Has(name.value) else Null,
        FieldOf(img.price), FieldOf(img.change), Joined(img.context));
      assert entry == ImgEntry(img);
      results := results + [entry];
    }
    ImgEntriesStop(imgs, i, topN);
  }

  lemma ImgEntriesStep(imgs: seq<Img>, i: int)
    requires 0 <= i < |imgs|
    ensures ImgEntries(imgs[..i + 1]) == ImgEntries(imgs[..i]) + (if Strip(imgs[i].alt) == "" then [] else [ImgEntry(imgs[i])])
  {
    assert imgs[..i + 1][..i] == imgs[..i];
  }

  /** Wherever the image loop stops, the entries so far are the capped entries of all images. */
  lemma ImgEntriesStop(imgs: seq<Img>, i: int, topN: int)
    requires 0 <= i <= |imgs|
    requires i == 0 || |ImgEntries(imgs[..i])| <= topN
    requires i < |imgs| ==> |ImgEntries(imgs[..i])| >= topN
    ensures ImgEntries(imgs[..i]) == Prefix(ImgEntries(imgs), topN)
  {
    var done := ImgEntries(imgs[..i]);
    assert imgs == imgs[..i] + imgs[i..];
    ImgEntriesAppend(imgs[..i], imgs[i..]);
    if i < |imgs| {
      PrefixOfExtension(done, ImgEntries(imgs[i..]), topN);
    } else {
      assert imgs[..i] == imgs;
    }
  }

  /** `(e.get("symbol") or "").upper()` */
  function SymbolKey(e: Entry): string
  {
    Upper(if e.symbol.Has? then e.symbol.value else "")
  }

  // ------------------------------------------------- dedup by key

  /** Entry `i` has a non-empty key, and no earlier entry has the same key. */
  predicate FirstOfKey(es: seq<Entry>, key: Entry -> string, i: int)
    requires 0 <= i < |es|
  {
    key(es[i]) != "" && forall j :: 0 <= j < i ==> key(es[j]) != key(es[i])
  }

  /** The entries that are first with their key, in their original order. */
  function Unique(es: seq<Entry>, key: Entry -> string): (u: seq<Entry>)
    ensures |u| <= |es|
  {
    if es == [] then [] else
      Unique(es[..|es| - 1], key) + (if FirstOfKey(es, key, |es| - 1) then [es[|es| - 1]] else [])
  }

  /** The positions of the entries that are first with their key, ascending. */
  function FirstPositions(es: seq<Entry>, key: Entry -> string): seq<int>
  {
    if es == [] then [] else
      FirstPositions(es[..|es| - 1], key) + (if FirstOfKey(es, key, |es| - 1) then [|es| - 1] else [])
  }

  /** The non-empty keys among the first `i` entries. */
  function SeenKeys(es: seq<Entry>, key: Entry -> string, i: int): set<string>
    requires 0 <= i <= |es|
  {
    set j | 0 <= j < i && key(es[j]) != "" :: key(es[j])
  }

  /** Whether an entry is first with its key depends only on the entries before it. */
  lemma FirstOfKeyPrefix(es: seq<Entry>, key: Entry -> string, m: int, i: int)
    requires 0 <= i < m <= |es|
    ensures FirstOfKey(es[..m], key, i) == FirstOfKey(es, key, i)
  {
    assert forall j :: 0 <= j <= i ==> es[..m][j] == es[j];
  }

  lemma UniqueStep(es: seq<Entry>, key: Entry -> string, i: int)
    requires 0 <= i < |es|
    ensures Unique(es[..i + 1], key) == Unique(es[..i], key) + (if FirstOfKey(es, key, i) then [es[i]] else [])
  {
    var p := es[..i + 1];
    assert p[..|p| - 1] == es[..i];
    FirstOfKeyPrefix(es, key, i + 1, i);
  }

  /** An entry is first with its key exactly when its key is non-empty and not seen before it. */
  lemma SeenStep(es: seq<Entry>, key: Entry -> string, i: int)
    requires 0 <= i < |es|
    ensures SeenKeys(es, key, i + 1) == SeenKeys(es, key, i) + (if key(es[i]) == "" then {} else {key(es[i])})
    ensures FirstOfKey(es, key, i) <==> key(es[i]) != "" && key(es[i]) !in SeenKeys(es, key, i)
  {
    var k := key(es[i]);
    if k != "" && k in SeenKeys(es, key, i) {
      var j :| 0 <= j < i && key(es[j]) != "" && key(es[j]) == k;
    }
  }

  lemma {:induction false} UniqueGrows(es: seq<Entry>, key: Entry -> string, i: int, n: int)
    requires 0 <= i <= n <= |es|
    ensures |Unique(es[..i], key)| <= |Unique(es[..n], key)|
    ensures Unique(es[..n], key)[..|Unique(es[..i], key)|] == Unique(es[..i], key)
    decreases n - i
  {
    if i < n {
      UniqueGrows(es, key, i, n - 1);
      UniqueStep(es, key, n - 1);
      var small := Unique(es[..i], key);
      var mid := Unique(es[..n - 1], key);
      var extra := if FirstOfKey(es, key, n - 1) then [es[n - 1]] else [];
      assert Unique(es[..n], key) == mid + extra;
      assert (mid + extra)[..|small|] == mid[..|small|];
    }
  }

  lemma FirstPositionsSnoc(es: seq<Entry>, key: Entry -> string)
    requires es != []
    ensures var n := |es|; var last := FirstOfKey(es, key, n - 1);
      && FirstPositions(es, key) == FirstPositions(es[..n - 1], key) + (if last then [n - 1] else [])
      && Unique(es, key) == Unique(es[..n - 1], key) + (if last then [es[n - 1]] else [])
  {
  }

  /** Each first position holds an entry that is first with its key, and the
      kept entries are the entries at those positions. */
  lemma {:induction false} FirstPositionsValid(es: seq<Entry>, key: Entry -> string)
    ensures |Unique(es, key)| == |FirstPositions(es, key)|
    ensures forall k :: 0 <= k < |FirstPositions(es, key)| ==>
      0 <= FirstPositions(es, key)[k] < |es|
      && FirstOfKey(es, key, FirstPositions(es, key)[k])
      && Unique(es, key)[k] == es[FirstPositions(es, key)[k]]
  {
    if es != [] {
      var n := |es|;
      var init := es[..n - 1];
      FirstPositionsValid(init, key);
      FirstPositionsSnoc(es, key);
      var p0 := FirstPositions(init, key);
      var u0 := Unique(init, key);
      var p := FirstPositions(es, key);
      var u := Unique(es, key);
      forall k | 0 <= k < |p|
        ensures 0 <= p[k] < |es| && FirstOfKey(es, key, p[k]) && u[k] == es[p[k]]
      {
        if k < |p0| {
          var j := p0[k];
          assert p[k] == j && u[k] == u0[k] == init[j] == es[j];
          FirstOfKeyPrefix(es, key, n - 1, j);
        } else {
          assert p[k] == n - 1 && FirstOfKey(es, key, n - 1);
        }
      }
    }
  }

  /** The first positions ascend. */
  lemma {:induction false} FirstPositionsAscend(es: seq<Entry>, key: Entry -> string)
    ensures forall a, b :: 0 <= a < b < |FirstPositions(es, key)| ==> FirstPositions(es, key)[a] < FirstPositions(es, key)[b]
  {
    if es != [] {
      var n := |es|;
      var init := es[..n - 1];
      FirstPositionsAscend(init, key);
      FirstPositionsValid(init, key);
      FirstPositionsSnoc(es, key);
      var p0 := FirstPositions(init, key);
      var p := FirstPositions(es, key);
      forall a, b | 0 <= a < b < |p| ensures p[a] < p[b] {
        if b < |p0| {
          assert p[a] == p0[a] && p[b] == p0[b];
        } else {
          assert p[a] == p0[a] < n - 1 == p[b];
        }
      }
    }
  }

  /** Every position that is first with its key is a first position. */
  lemma {:induction false} FirstPositionsComplete(es: seq<Entry>, key: Entry -> string)
    ensures forall i :: 0 <= i < |es| && FirstOfKey(es, key, i) ==> i in FirstPositions(es, key)
  {
    if es != [] {
      var n := |es|;
      var init := es[..n - 1];
      FirstPositionsComplete(init, key);
      FirstPositionsSnoc(es, key);
      var p0 := FirstPositions(init, key);
      var p := FirstPositions(es, key);
      forall i | 0 <= i < |es| && FirstOfKey(es, key, i) ensures i in p {
        if i < n - 1 {
          FirstOfKeyPrefix(es, key, n - 1, i);
          assert i in p0;
        } else {
          assert p[|p| - 1] == i;
        }
      }
    }
  }

  /** The kept entries are the entries at the first positions, which ascend:
      the first entry with each key is kept, in the original relative order,
      and no other entry is. */
  lemma UniqueAtFirstPositions(es: seq<Entry>, key: Entry -> string)
    ensures |Unique(es, key)| == |FirstPositions(es, key)|
    ensures forall k :: 0 <= k < |FirstPositions(es, key)| ==>
      0 <= FirstPositions(es, key)[k] < |es|
      && FirstOfKey(es, key, FirstPositions(es, key)[k])
      && Unique(es, key)[k] == es[FirstPositions(es, key)[k]]
    ensures forall a, b :: 0 <= a < b < |FirstPositions(es, key)| ==> FirstPositions(es, key)[a] < FirstPositions(es, key)[b]
    ensures forall i :: 0 <= i < |es| && FirstOfKey(es, key, i) ==> i in FirstPositions(es, key)
  {
    FirstPositionsValid(es, key);
    FirstPositionsAscend(es, key);
    FirstPositionsComplete(es, key);
  }

  /** Every kept entry has a key, and no two kept entries share one. */
  lemma UniqueDistinct(es: seq<Entry>, key: Entry -> string)
    ensures forall k :: 0 <= k < |Unique(es, key)| ==> key(Unique(es, key)[k]) != ""
    ensures forall a, b :: 0 <= a < b < |Unique(es, key)| ==> key(Unique(es, key)[a]) != key(Unique(es, key)[b])
  {
    UniqueAtFirstPositions(es, key);
    var p := FirstPositions(es, key);
    forall a, b | 0 <= a < b < |Unique(es, key)|
      ensures key(Unique(es, key)[a]) != key(Unique(es, key)[b])
    {
      assert FirstOfKey(es, key, p[b]) && p[a] < p[b];
    }
  }

  /** The position of the first entry with the key of entry `i`. */
  lemma FirstWithKey(es: seq<Entry>, key: Entry -> string, i: int) returns (f: int)
    requires 0 <= i < |es| && key(es[i]) != ""
    ensures 0 <= f <= i && key(es[f]) == key(es[i]) && FirstOfKey(es, key, f)
    decreases i
  {
    if exists j :: 0 <= j < i && key(es[j]) == key(es[i]) {
      var j :| 0 <= j < i && key(es[j]) == key(es[i]);
      f := FirstWithKey(es, key, j);
    } else {
      f := i;
    }
  }

  /** Every non-empty key of the input is the key of some kept entry. */
  lemma UniqueCoversKeys(es: seq<Entry>, key: Entry -> string)
    ensures forall i :: 0 <= i < |es| && key(es[i]) != "" ==>
      exists k :: 0 <= k < |Unique(es, key)| && key(Unique(es, key)[k]) == key(es[i])
  {
    UniqueAtFirstPositions(es, key);
    var p := FirstPositions(es, key);
    forall i | 0 <= i < |es| && key(es[i]) != ""
      ensures exists k :: 0 <= k < |Unique(es, key)| && key(Unique(es, key)[k]) == key(es[i])
    {
      var f := FirstWithKey(es, key, i);
      var k :| 0 <= k < |p| && p[k] == f;
      assert Unique(es, key)[k] == es[f];
    }
  }

  /** One step of the dedup loop: an entry whose key is empty or already seen
      leaves both the kept entries and the seen keys as they are; any other
      entry is kept and its key becomes seen. */
  lemma DedupStep(es: seq<Entry>, key: Entry -> string, i: int)
    requires 0 <= i < |es|
    ensures key(es[i]) == "" || key(es[i]) in SeenKeys(es, key, i) ==>
      && Unique(es[..i + 1], key) == Unique(es[..i], key)
      && SeenKeys(es, key, i + 1) == SeenKeys(es, key, i)
    ensures key(es[i]) != "" && key(es[i]) !in SeenKeys(es, key, i) ==>
      && Unique(es[..i + 1], key) == Unique(es[..i], key) + [es[i]]
      && SeenKeys(es, key, i + 1) == SeenKeys(es, key, i) + {key(es[i])}
  {
    UniqueStep(es, key, i);
    SeenStep(es, key, i);
  }

  /** Where the dedup loop stops: at the end of the input with fewer than the
      cap kept, or as soon as the cap is reached. Either way it has kept a
      prefix of all the kept entries, capped at `max(topN, 1)`. */
  lemma DedupStops(es: seq<Entry>, key: Entry -> string, i: int, topN: int)
    requires 0 <= i <= |es|
    requires || Unique(es[..i], key) == [] || |Unique(es[..i], key)| < topN
             || |Unique(es[..i], key)| == (if topN > 1 then topN else 1)
    requires i < |es| ==> |Unique(es[..i], key)| == if topN > 1 then topN else 1
    ensures Unique(es[..i], key) == Prefix(Unique(es, key), if topN > 1 then topN else 1)
  {
    UniqueGrows(es, key, i, |es|);
    assert es[..|es|] == es;
  }

  /** The dedup loop of `try_parse_kimpga`: skip entries without a symbol or
      with one already seen, and stop after the entry that reaches `topN`. */
  method DedupBySymbol(results: seq<Entry>, topN: int) returns (unique: seq<Entry>)
    ensures unique == Prefix(Unique(results, SymbolKey), if topN > 1 then topN else 1)
  {
    var seen: set<string> := {};
    unique := [];
    var i := 0;
    while i < |results|
      invariant 0 <= i <= |results|
      invariant unique == Unique(results[..i], SymbolKey)
      invariant seen == SeenKeys(results, SymbolKey, i)
      invariant unique == [] || |unique| < topN
    {
      var e := results[i];
      var sym := SymbolKey(e);
      DedupStep(results, SymbolKey, i);
      i := i + 1;
      if sym == "" || sym in seen {
        continue;
      }
      seen := seen + {sym};
      unique := unique + [e];
      if |unique| >= topN {
        break;
      }
    }
    DedupStops(results, SymbolKey, i, topN);
  }

  // ------------------------------------------------- ranks and the result

  /** `entry.setdefault("rank", idx)` */
  function WithDefaultRank(e: Entry, idx: int): (r: Entry)
    ensures r.rank == (if e.rank.Missing? then Has(idx) else e.rank)
    ensures r == e.(rank := r.rank)
  {
    if e.rank.Missing? then e.(rank := Has(idx)) else e
  }

  /** The entries with a missing rank numbered by position, from 1. */
  function Ranked(es: seq<Entry>): (r: seq<Entry>)
    ensures |r| == |es|
  {
    seq(|es|, k requires 0 <= k < |es| => WithDefaultRank(es[k], k + 1))
  }

  /** The ranking loop of `try_parse_kimpga`. */
  method AssignRanks(unique: seq<Entry>) returns (ranked: seq<Entry>)
    ensures ranked == Ranked(unique)
  {
    ranked := unique;
    for k := 0 to |unique|
      invariant |ranked| == |unique|
      invariant forall j :: 0 <= j < k ==> ranked[j] == WithDefaultRank(unique[j], j + 1)
      invariant forall j :: k <= j < |unique| ==> ranked[j] == unique[j]
    {
      ranked := ranked[k := WithDefaultRank(ranked[k], k + 1)];
    }
  }

  /** The deduplicated entries before ranking. */
  function Deduped(imgs: seq<Img>, topN: int): seq<Entry>
  {
    Prefix(Unique(Prefix(ImgEntries(imgs), topN), SymbolKey), if topN > 1 then topN else 1)
  }

  /** What `try_parse_kimpga` returns. */
  function ParseKimpga(imgs: seq<Img>, topN: int): (coins: seq<Entry>)
    ensures |coins| <= |imgs|
  {
    Take(Ranked(Deduped(imgs, topN)), topN)
  }

  /** `try_parse_kimpga` */
  method TryParseKimpga(imgs: seq<Img>, topN: int) returns (coins: seq<Entry>)
    ensures coins == ParseKimpga(imgs, topN)
  {
    var results := CollectImages(imgs, topN);
    var unique := DedupBySymbol(results, topN);
    var ranked := AssignRanks(unique);
    coins := Take(ranked, topN);
  }

  /** The site-specific parser returns at most `topN` entries. */
  lemma ParseKimpgaBound(imgs: seq<Img>, topN: int)
    ensures |ParseKimpga(imgs, topN)| <= (if topN > 0 then topN else 0)
  {
  }

  /** Result `k` is ranked `k + 1` and, rank aside, is the first image entry
      with its symbol. */
  lemma ParseKimpgaEntry(imgs: seq<Img>, topN: int, k: int)
    requires 0 <= k < |ParseKimpga(imgs, topN)|
    ensures ParseKimpga(imgs, topN)[k].rank == Has(k + 1)
    ensures exists i ::
      && 0 <= i < |ImgEntries(imgs)| && FirstOfKey(ImgEntries(imgs), SymbolKey, i)
      && ParseKimpga(imgs, topN)[k].(rank := Missing) == ImgEntries(imgs)[i]
  {
    var all := ImgEntries(imgs);
    var collected := Prefix(all, topN);
    var u := Unique(collected, SymbolKey);
    var d := Deduped(imgs, topN);
    var r := ParseKimpga(imgs, topN);
    assert r[k] == Ranked(d)[k] == WithDefaultRank(d[k], k + 1);
    assert d[k] == u[k];
    UniqueAtFirstPositions(collected, SymbolKey);
    var i := FirstPositions(collected, SymbolKey)[k];
    assert u[k] == collected[i] == all[i];
    FirstOfKeyPrefix(all, SymbolKey, |collected|, i);
    ImgEntriesHaveSymbols(imgs);
    assert all[i] in all;
    assert all[i].rank == Missing;
  }

  /** The results carry non-empty symbols, no two equal up to case. */
  lemma ParseKimpgaDistinct(imgs: seq<Img>, topN: int)
    ensures forall k :: 0 <= k < |ParseKimpga(imgs, topN)| ==> SymbolKey(ParseKimpga(imgs, topN)[k]) != ""
    ensures forall a, b :: 0 <= a < b < |ParseKimpga(imgs, topN)| ==>
      SymbolKey(ParseKimpga(imgs, topN)[a]) != SymbolKey(ParseKimpga(imgs, topN)[b])
  {
    var u := Unique(Prefix(ImgEntries(imgs), topN), SymbolKey);
    var r := ParseKimpga(imgs, topN);
    UniqueDistinct(Prefix(ImgEntries(imgs), topN), SymbolKey);
    assert forall k :: 0 <= k < |r| ==> r[k].symbol == u[k].symbol;
  }

  // -------------------------------------------------------------- fallback

  /** What `get_top_coins` returns: the table parser's result when it has one,
      otherwise the card parser's, and nothing when the page could not be read. */
  function TopCoins(html: Option<Page>, topN: int): (coins: seq<Entry>)
    ensures html.None? ==> coins == []
    ensures |coins| <= (if topN > 0 then topN else 0)
  {
    match html
    case None => []
    case Some(page) =>
      var fromTables := ParseTable(page.tables, topN);
      if fromTables != [] then Take(fromTables, topN)
      else
        var fromCards := Prefix(CardEntries(page.cards), topN);
        if fromCards != [] then Take(fromCards, topN) else []
  }

  /** `get_top_coins` after the page source is in hand. */
  method GetTopCoins(html: Option<Page>, topN: int) returns (coins: seq<Entry>)
    ensures coins == TopCoins(html, topN)
  {
    if html.None? {
      return [];
    }
    var page := html.value;
    var res := TryParseTable(page.tables, topN);
    if res != [] {
      return Take(res, topN);
    }
    res := TryParseCards(page.cards, topN);
    if res != [] {
      return Take(res, topN);
    }
    return [];
  }

  /** The cards are consulted only when no table yields an entry, and the answer
      never holds more than `topN` entries. */
  lemma TopCoinsSpec(page: Page, topN: int)
    ensures var r := TopCoins(Some(page), topN);
      && |r| <= (if topN > 0 then topN else 0)
      && (ParseTable(page.tables, topN) != [] ==> r == ParseTable(page.tables, topN))
      && (ParseTable(page.tables, topN) == [] ==> r == Prefix(CardEntries(page.cards), topN))
  {
    ParseTableSpec(page.tables, topN);
  }
}
