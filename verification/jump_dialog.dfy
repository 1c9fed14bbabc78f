// The jump-to-page dialog's decisions: which pages are listed for a search,
// when a "create new page" row appears, what the dialog returns, how the
// Shift+J / Shift+K keys move the selection, its title, and where a newly
// named page goes.

module JumpDialog {
  import opened Strings

  /** How the dialog was opened. */
  datatype LaunchMode = Jump | InsertLink | CreateNew

  /** A search hit: a page path and its title. */
  datatype Page = Page(path: string, title: Option<string>)

  /** A list row: the path it stands for, and whether it is the synthetic
      "create new page" row. */
  datatype Row = Row(path: string, isCreate: bool)

  /** The dialog's state. `current` is the selected row, -1 for none. */
  datatype Dialog = Dialog(
    mode: LaunchMode,
    currentPagePath: Option<string>,
    filterPrefix: Option<string>,
    searchText: string,
    rows: seq<Row>,
    current: int,
    hasMatches: bool)

  const VaultRoot := "Vault Root"

  // ---------------------------------------------------------------------
  // Where a new page goes

  /** The `/`-separated segments of a page path without its outer slashes. */
  function PathSegments(path: string): (r: seq<string>)
    ensures |r| >= 1
  {
    Split(StripChar(path, '/'), '/')
  }

  /** The folder the current page lives in, when it has one: the
      second-to-last segment of its path. */
  function ParentFolder(currentPagePath: Option<string>): (r: Option<string>)
    ensures r.Some? ==> Truthy(currentPagePath) && '/' !in r.value
    ensures r.Some? <==> Truthy(currentPagePath) && |PathSegments(currentPagePath.value)| >= 2
  {
    if !Truthy(currentPagePath) then None
    else
      var parts := PathSegments(currentPagePath.value);
      if |parts| <= 1 then None else Some(parts[|parts| - 2])
  }

  /** The label of the folder new pages are created in. */
  function VaultLevel(currentPagePath: Option<string>): (r: string)
    ensures ParentFolder(currentPagePath).None? ==> r == VaultRoot
    ensures ParentFolder(currentPagePath).Some? ==> r == ParentFolder(currentPagePath).value
  {
    if !Truthy(currentPagePath) then VaultRoot
    else
      var parts := PathSegments(currentPagePath.value);
      if |parts| <= 1 then VaultRoot
      else if |parts| >= 2 then parts[|parts| - 2]
      else VaultRoot
  }

  /** A typed page name made safe for a path: stripped, `/` turned into `_`. */
  function CleanPageName(name: string): (r: string)
    ensures '/' !in r
  {
    ReplaceCharPointwise(Strip(name), '/', '_');
    ReplaceChar(Strip(name), '/', "_")
  }

  /** The path of a new page with the given name, next to the current page. */
  function NewPagePath(currentPagePath: Option<string>, name: string): (r: string)
    ensures var n := CleanPageName(name); var p := ParentFolder(currentPagePath);
      r == (if p.Some? && p.value != "" then "/" + p.value + "/" + n + "/" + n + ".md"
            else "/" + n + "/" + n + ".md")
  {
    var clean := CleanPageName(name);
    if !Truthy(currentPagePath) then "/" + clean + "/" + clean + ".md"
    else
      var parts := PathSegments(currentPagePath.value);
      if |parts| <= 1 then "/" + clean + "/" + clean + ".md"
      else
        var parent := if |parts| >= 2 then parts[|parts| - 2] else "";
        if parent != "" then "/" + parent + "/" + clean + "/" + clean + ".md"
        else "/" + clean + "/" + clean + ".md"
  }

  /** A new page lands in the folder the title names, unless that level
      is the vault root; either way it is a page folder holding a file of
      the same name. */
  lemma NewPageAtVaultLevel(currentPagePath: Option<string>, name: string)
    ensures var n := CleanPageName(name); var r := NewPagePath(currentPagePath, name);
      EndsWith(r, "/" + n + "/" + n + ".md") && StartsWith(r, "/")
    ensures var level := VaultLevel(currentPagePath);
      ParentFolder(currentPagePath).Some? && level != "" ==>
        StartsWith(NewPagePath(currentPagePath, name), "/" + level + "/")
    ensures ParentFolder(currentPagePath).None? ==>
      var n := CleanPageName(name); NewPagePath(currentPagePath, name) == "/" + n + "/" + n + ".md"
  {
    var n := CleanPageName(name);
    var p := ParentFolder(currentPagePath);
    if p.Some? && p.value != "" {
      PageUnder(p.value, n);
    } else {
      PageAtRoot(n);
    }
  }

  lemma PageAtRoot(n: string)
    ensures StartsWith("/" + n + "/" + n + ".md", "/")
    ensures EndsWith("/" + n + "/" + n + ".md", "/" + n + "/" + n + ".md")
  {
    assert "/" + n + "/" + n + ".md" == "/" + (n + "/" + n + ".md");
    ConcatEnds("/", n + "/" + n + ".md");
    ConcatEnds("", "/" + n + "/" + n + ".md");
  }

  lemma PageUnder(folder: string, n: string)
    ensures var r := "/" + folder + "/" + n + "/" + n + ".md";
      StartsWith(r, "/" + folder + "/") && StartsWith(r, "/") && EndsWith(r, "/" + n + "/" + n + ".md")
  {
    var tail := "/" + n + "/" + n + ".md";
    var r := "/" + folder + "/" + n + "/" + n + ".md";
    assert r == ("/" + folder + "/") + (n + "/" + n + ".md");
    ConcatEnds("/" + folder + "/", n + "/" + n + ".md");
    assert r == "/" + (folder + tail);
    ConcatEnds("/", folder + tail);
    assert r == ("/" + folder) + tail;
    ConcatEnds("/" + folder, tail);
  }

  // ---------------------------------------------------------------------
  // Searching

  /** The search term: the stripped text without leading colons. */
  function SearchTerm(searchText: string): (r: string)
    ensures r == "" || r[0] != ':'
    ensures |r| <= |searchText|
    ensures var t := Strip(searchText);
      |r| <= |t| && r == t[|t| - |r|..] && forall i :: 0 <= i < |t| - |r| ==> t[i] == ':'
  {
    var t := Strip(searchText);
    if StartsWith(t, ":") then LStripChar(t, ':') else t
  }

  predicate InFilter(filterPrefix: Option<string>, page: Page)
  {
    !Truthy(filterPrefix) || StartsWith(page.path, filterPrefix.value)
  }

  /** The hits inside the active folder filter, in order. */
  function FilterPages(filterPrefix: Option<string>, pages: seq<Page>): (r: seq<Page>)
    ensures |r| <= |pages|
    ensures forall i :: 0 <= i < |r| ==> InFilter(filterPrefix, r[i])
    ensures forall p :: p in r <==> p in pages && InFilter(filterPrefix, p)
  {
    if pages == [] then []
    else
      var rest := FilterPages(filterPrefix, pages[1..]);
      assert forall p :: p in pages <==> p == pages[0] || p in pages[1..];
      if InFilter(filterPrefix, pages[0]) then [pages[0]] + rest else rest
  }

  /** Filtering keeps the search order: the hits of a concatenation are the
      hits of each part, one after the other. */
  lemma {:induction false} FilterPagesAppend(filterPrefix: Option<string>, a: seq<Page>, b: seq<Page>)
    ensures FilterPages(filterPrefix, a + b) == FilterPages(filterPrefix, a) + FilterPages(filterPrefix, b)
    decreases |a|
  {
    if a == [] {
      assert a + b == b;
    } else {
      assert (a + b)[0] == a[0];
      assert (a + b)[1..] == a[1..] + b;
      FilterPagesAppend(filterPrefix, a[1..], b);
    }
  }

  /** A single hit is kept exactly when it lies inside the filter. */
  lemma FilterPagesOne(filterPrefix: Option<string>, p: Page)
    ensures FilterPages(filterPrefix, [p]) == if InFilter(filterPrefix, p) then [p] else []
  {
    assert [p][1..] == [];
  }

  function PageRows(pages: seq<Page>): (r: seq<Row>)
    ensures |r| == |pages|
    ensures forall i :: 0 <= i < |r| ==> r[i] == Row(pages[i].path, false)
  {
    seq(|pages|, i requires 0 <= i < |pages| => Row(pages[i].path, false))
  }

  /** The create row is offered only when inserting a link, nothing matched
      and a term was typed. */
  predicate OffersCreate(mode: LaunchMode, matches: seq<Page>, term: string)
  {
    matches == [] && mode == InsertLink && term != ""
  }

  /** The list after the search text changed to `d.searchText`; `pages` are
      the hits the page search returned for the term. */
  function Refresh(d: Dialog, pages: seq<Page>): (r: Dialog)
    ensures ValidSelection(r)
    ensures r.rows != [] ==> r.current == 0
    ensures r.hasMatches <==> exists i | 0 <= i < |r.rows| :: !r.rows[i].isCreate
    ensures forall i :: 0 <= i < |r.rows| && !r.rows[i].isCreate ==>
      Truthy(d.filterPrefix) ==> StartsWith(r.rows[i].path, d.filterPrefix.value)
    ensures (exists i | 0 <= i < |r.rows| :: r.rows[i].isCreate) <==>
      !r.hasMatches && d.mode == InsertLink && SearchTerm(d.searchText) != ""
    ensures forall i :: 0 <= i < |r.rows| && r.rows[i].isCreate ==>
      r.rows[i].path == NewPagePath(d.currentPagePath, SearchTerm(d.searchText)) && |r.rows| == 1
    ensures var matches := FilterPages(d.filterPrefix, pages);
      !OffersCreate(d.mode, matches, SearchTerm(d.searchText)) ==> r.rows == PageRows(matches)
    ensures r.mode == d.mode && r.searchText == d.searchText && r.currentPagePath == d.currentPagePath
      && r.filterPrefix == d.filterPrefix
  {
    var term := SearchTerm(d.searchText);
    var matches := FilterPages(d.filterPrefix, pages);
    if OffersCreate(d.mode, matches, term) then
      // Nothing matched, so the create row is the only row.
      var rows := [Row(NewPagePath(d.currentPagePath, term), true)];
      assert rows[0].isCreate;
      d.(rows := rows, current := 0, hasMatches := false)
    else
      var listed := PageRows(matches);
      assert matches != [] ==> !listed[0].isCreate;
      assert forall i :: 0 <= i < |listed| ==> InFilter(d.filterPrefix, matches[i]);
      d.(rows := listed, current := if listed != [] then 0 else -1, hasMatches := matches != [])
  }

  /** The selection is a row of the list, or there is no row at all. */
  predicate ValidSelection(d: Dialog)
  {
    (d.rows == [] && d.current == -1) || 0 <= d.current < |d.rows|
  }

  /** What the dialog hands back: the selected row's path; without a
      selection, a path for a new page named by the search text when
      inserting or creating found nothing. */
  function SelectedPath(d: Dialog): (r: Option<string>)
    ensures 0 <= d.current < |d.rows| ==> r == Some(d.rows[d.current].path)
    ensures !(0 <= d.current < |d.rows|) ==>
      (r.Some? <==> d.mode != Jump && !d.hasMatches && Strip(d.searchText) != "")
    ensures !(0 <= d.current < |d.rows|) && r.Some? ==> r.value == NewPagePath(d.currentPagePath, Strip(d.searchText))
  {
    var term := Strip(d.searchText);
    if 0 <= d.current < |d.rows| then Some(d.rows[d.current].path)
    else if (d.mode == InsertLink || d.mode == CreateNew) && !d.hasMatches && term != "" then
      Some(NewPagePath(d.currentPagePath, term))
    else
      assert d.mode == Jump || d.hasMatches || term == "";
      None
  }

  /** Shift+J: one row down, unless at the last row. */
  function MoveDown(d: Dialog): (r: Dialog)
    requires ValidSelection(d)
    ensures ValidSelection(r) && r.rows == d.rows
    ensures r.current == (if d.current < |d.rows| - 1 then d.current + 1 else d.current)
  {
    if d.current < |d.rows| - 1 then d.(current := d.current + 1) else d
  }

  /** Shift+K: one row up, unless at the first row. */
  function MoveUp(d: Dialog): (r: Dialog)
    requires ValidSelection(d)
    ensures ValidSelection(r) && r.rows == d.rows
    ensures r.current == (if d.current > 0 then d.current - 1 else d.current)
  {
    if d.current > 0 then d.(current := d.current - 1) else d
  }

  /** Down then up returns to a row that was not the last one. */
  lemma DownUp(d: Dialog)
    requires ValidSelection(d) && 0 <= d.current < |d.rows| - 1
    ensures MoveUp(MoveDown(d)) == d
  {
  }

  /** The window title. */
  function Title(d: Dialog): (r: string)
    ensures d.mode == Jump || d.mode == CreateNew ==> r == "Jump to Page"
    ensures d.mode == InsertLink && !d.hasMatches && Strip(d.searchText) != "" ==>
      r == "Create New Page in " + VaultLevel(d.currentPagePath)
    ensures d.mode == InsertLink && (d.hasMatches || Strip(d.searchText) == "") ==> r == "Insert Link to Page"
  {
    if d.mode == InsertLink then
      if !d.hasMatches && Strip(d.searchText) != "" then "Create New Page in " + VaultLevel(d.currentPagePath)
      else "Insert Link to Page"
    else "Jump to Page"
  }

  /** After a refresh in insert-link mode, a "Create New Page" title means
      the dialog hands back a new page path, and the plain title means it
      hands back a listed hit or nothing. */
  lemma CreateTitleReturnsNewPage(d: Dialog, pages: seq<Page>)
    requires d.mode == InsertLink
    ensures var r := Refresh(d, pages); var term := SearchTerm(d.searchText);
      Title(r) == "Create New Page in " + VaultLevel(d.currentPagePath) ==>
        SelectedPath(r) == Some(NewPagePath(d.currentPagePath, if term != "" then term else Strip(d.searchText)))
    ensures var r := Refresh(d, pages);
      Title(r) == "Insert Link to Page" && SelectedPath(r).Some? ==>
        r.rows != [] && !r.rows[0].isCreate && SelectedPath(r) == Some(r.rows[0].path)
  {
    var r := Refresh(d, pages);
    var term := SearchTerm(d.searchText);
    var create := "Create New Page in " + VaultLevel(d.currentPagePath);
    assert create[0] != "Insert Link to Page"[0];
    if !r.hasMatches && Strip(d.searchText) != "" {
      assert Title(r) == create;
      if term == "" {
        assert r.rows == [];
      }
    } else {
      assert Title(r) == "Insert Link to Page" != create;
      assert term != "" ==> Strip(d.searchText) != "";
    }
  }

  // ---------------------------------------------------------------------
  // Escaping labels

  /** Python's `html.escape` for one character (quotes included). */
  function EscapeChar(c: char): (r: string)
    ensures '<' !in r && '>' !in r && '"' !in r && '\'' !in r && |r| >= 1
  {
    if c == '&' then "&amp;"
    else if c == '<' then "&lt;"
    else if c == '>' then "&gt;"
    else if c == '"' then "&quot;"
    else if c == '\'' then "&#x27;"
    else [c]
  }

  /** Python's `html.escape(text)`. */
  function HtmlEscape(s: string): (r: string)
    ensures '<' !in r && '>' !in r && '"' !in r && '\'' !in r
    ensures |r| >= |s|
    ensures WellEscaped(r)
  {
    if s == "" then ""
    else
      EscapeCharWellEscaped(s[0]);
      WellEscapedConcat(EscapeChar(s[0]), HtmlEscape(s[1..]));
      EscapeChar(s[0]) + HtmlEscape(s[1..])
  }

  /** The text starts with one of the five entities. */
  predicate EntityFront(t: string)
  {
    StartsWith(t, "&amp;") || StartsWith(t, "&lt;") || StartsWith(t, "&gt;")
    || StartsWith(t, "&quot;") || StartsWith(t, "&#x27;")
  }

  /** One of the five entities starts at position `i`. */
  predicate EntityAt(s: string, i: int)
    requires 0 <= i <= |s|
  {
    EntityFront(s[i..])
  }

  /** Text as `html.escape` leaves it: no raw `<`, `>`, `"` or `'`, and
      every `&` starts an entity. */
  predicate WellEscaped(s: string)
  {
    forall i :: 0 <= i < |s| ==>
      s[i] != '<' && s[i] != '>' && s[i] != '"' && s[i] != '\'' && (s[i] == '&' ==> EntityAt(s, i))
  }

  lemma EscapeCharWellEscaped(c: char)
    ensures WellEscaped(EscapeChar(c))
  {
    if c == '&' { EntityWellEscaped("&amp;"); }
    else if c == '<' { EntityWellEscaped("&lt;"); }
    else if c == '>' { EntityWellEscaped("&gt;"); }
    else if c == '"' { EntityWellEscaped("&quot;"); }
    else if c == '\'' { EntityWellEscaped("&#x27;"); }
    else { assert EscapeChar(c) == [c]; }
  }

  /** An entity on its own is escaped text. */
  lemma EntityWellEscaped(e: string)
    requires e == "&amp;" || e == "&lt;" || e == "&gt;" || e == "&quot;" || e == "&#x27;"
    ensures WellEscaped(e)
  {
    assert e[0..] == e;
    assert EntityAt(e, 0);
    forall i | 1 <= i < |e| ensures e[i] != '&' && e[i] != '<' && e[i] != '>' && e[i] != '"' && e[i] != '\'' {
    }
  }

  /** Escaped pieces stay escaped when put side by side. */
  lemma WellEscapedConcat(a: string, b: string)
    requires WellEscaped(a) && WellEscaped(b)
    ensures WellEscaped(a + b)
  {
    var ab := a + b;
    forall i | 0 <= i < |ab| && ab[i] == '&'
      ensures EntityAt(ab, i)
    {
      if i < |a| {
        assert a[i] == '&';
        assert ab[i..] == a[i..] + b;
        assert EntityAt(a, i);
      } else {
        assert b[i - |a|] == '&';
        assert ab[i..] == b[i - |a|..];
        assert EntityAt(b, i - |a|);
      }
    }
  }

  /** A suffix of escaped text is escaped text. */
  lemma WellEscapedSuffix(s: string, k: nat)
    requires WellEscaped(s) && k <= |s|
    ensures WellEscaped(s[k..])
  {
    var t := s[k..];
    forall i | 0 <= i < |t| && t[i] == '&'
      ensures EntityAt(t, i)
    {
      assert s[k + i] == t[i];
      assert t[i..] == s[k + i..];
      assert EntityAt(s, k + i);
    }
  }

  /** The length of the escaped text's first token: an entity, or one
      plain character. */
  function HeadLen(r: string): nat
    requires r != ""
  {
    if r[0] != '&' then 1
    else if StartsWith(r, "&amp;") then 5
    else if StartsWith(r, "&lt;") || StartsWith(r, "&gt;") then 4
    else 6
  }

  /** Text not starting with `&` starts with no entity. */
  lemma NoEntityFront(t: string)
    requires t != "" && t[0] != '&'
    ensures !StartsWith(t, "&amp;") && !StartsWith(t, "&lt;") && !StartsWith(t, "&gt;")
    ensures !StartsWith(t, "&quot;") && !StartsWith(t, "&#x27;")
  {
    assert |t| >= 4 ==> t[..4][0] == t[0];
    assert |t| >= 5 ==> t[..5][0] == t[0];
    assert |t| >= 6 ==> t[..6][0] == t[0];
  }

  /** A plain first character reads back as itself. */
  lemma PlainHead(r: string)
    requires WellEscaped(r) && r != "" && r[0] != '&'
    ensures HtmlUnescape(r) == [r[0]] + HtmlUnescape(r[1..])
    ensures r[..1] == EscapeChar(r[0])
  {
    assert r[0] != '<' && r[0] != '>' && r[0] != '"' && r[0] != '\'';
    NoEntityFront(r);
  }

  /** An entity at the front reads back as the character it escapes. */
  lemma EntityHead(r: string)
    requires r != "" && EntityFront(r)
    ensures HeadLen(r) <= |r|
    ensures HtmlUnescape(r) != ""
    ensures r[..HeadLen(r)] == EscapeChar(HtmlUnescape(r)[0])
    ensures HtmlUnescape(r)[1..] == HtmlUnescape(r[HeadLen(r)..])
  {
    if StartsWith(r, "&amp;") {
      TokenLen(r, "&amp;", '&');
      KnownHead(r, 5, '&');
    } else if StartsWith(r, "&lt;") {
      TokenLen(r, "&lt;", '<');
      KnownHead(r, 4, '<');
    } else if StartsWith(r, "&gt;") {
      TokenLen(r, "&gt;", '>');
      KnownHead(r, 4, '>');
    } else if StartsWith(r, "&quot;") {
      TokenLen(r, "&quot;", '"');
      KnownHead(r, 6, '"');
    } else {
      TokenLen(r, "&#x27;", '\'');
      KnownHead(r, 6, '\'');
    }
  }

  /** A text opening with one of the five entities: the token's length and the character it stands for. */
  lemma TokenLen(r: string, t: string, c: char)
    requires StartsWith(r, t)
    requires (t, c) in {("&amp;", '&'), ("&lt;", '<'), ("&gt;", '>'), ("&quot;", '"'), ("&#x27;", '\'')}
    ensures HeadLen(r) == |t| && r[..|t|] == EscapeChar(c)
  {
    assert r[0] == t[0] && r[1] == t[1];
  }

  /** The head equations once the first token and its character are known. */
  lemma KnownHead(r: string, k: nat, c: char)
    requires r != "" && k <= |r| && HeadLen(r) == k && r[..k] == EscapeChar(c)
    ensures HtmlUnescape(r) != ""
    ensures r[..HeadLen(r)] == EscapeChar(HtmlUnescape(r)[0])
    ensures HtmlUnescape(r)[1..] == HtmlUnescape(r[HeadLen(r)..])
  {
    TokenStep(r, k, c);
    HeadStep(r, k, c);
  }

  /** A text that opens with the escape of `c` unescapes to `c` and then the rest. */
  lemma TokenStep(r: string, k: nat, c: char)
    requires k <= |r| && r[..k] == EscapeChar(c)
    ensures HtmlUnescape(r) == [c] + HtmlUnescape(r[k..])
  {
    assert r == r[..k] + r[k..];
    UnescapeStep(c, r[k..]);
  }

  /** The head equations once the first token and its character are known. */
  lemma HeadStep(r: string, k: nat, c: char)
    requires r != "" && k <= |r| && HeadLen(r) == k
    requires r[..k] == EscapeChar(c)
    requires HtmlUnescape(r) == [c] + HtmlUnescape(r[k..])
    ensures HtmlUnescape(r) != ""
    ensures r[..HeadLen(r)] == EscapeChar(HtmlUnescape(r)[0])
    ensures HtmlUnescape(r)[1..] == HtmlUnescape(r[HeadLen(r)..])
  {
    assert ([c] + HtmlUnescape(r[k..]))[1..] == HtmlUnescape(r[k..]);
  }

  /** `html.escape` is the only escaping that reads back to the text:
      any well-escaped string that unescapes to `s` is `HtmlEscape(s)`. */
  lemma {:induction false} EscapeUnique(r: string, s: string)
    requires WellEscaped(r) && HtmlUnescape(r) == s
    ensures r == HtmlEscape(s)
    decreases |r|
  {
    if r != "" {
      var k := HeadLen(r);
      if r[0] == '&' {
        assert r[0..] == r;
        assert EntityAt(r, 0);
        EntityHead(r);
      } else {
        PlainHead(r);
      }
      assert s != "" && r[..k] == EscapeChar(s[0]) && s[1..] == HtmlUnescape(r[k..]);
      WellEscapedSuffix(r, k);
      EscapeUnique(r[k..], s[1..]);
      assert r == r[..k] + r[k..];
    }
  }

  /** Reads the five entities back; any other character stands for itself. */
  function HtmlUnescape(s: string): string
    decreases |s|
  {
    if s == "" then ""
    else if StartsWith(s, "&amp;") then "&" + HtmlUnescape(s[5..])
    else if StartsWith(s, "&lt;") then "<" + HtmlUnescape(s[4..])
    else if StartsWith(s, "&gt;") then ">" + HtmlUnescape(s[4..])
    else if StartsWith(s, "&quot;") then "\"" + HtmlUnescape(s[6..])
    else if StartsWith(s, "&#x27;") then "'" + HtmlUnescape(s[6..])
    else [s[0]] + HtmlUnescape(s[1..])
  }

  /** Unescaping reads one escaped character at a time. */
  lemma UnescapeStep(c: char, rest: string)
    ensures HtmlUnescape(EscapeChar(c) + rest) == [c] + HtmlUnescape(rest)
  {
    var e := EscapeChar(c);
    var t := e + rest;
    assert t[|e|..] == rest;
    if c == '&' {
      assert StartsWith(t, "&amp;");
    } else if c == '<' {
      NotEntity(t, 'l');
      assert StartsWith(t, "&lt;");
    } else if c == '>' {
      NotEntity(t, 'g');
      assert !StartsWith(t, "&lt;");
      assert StartsWith(t, "&gt;");
    } else if c == '"' {
      NotEntity(t, 'q');
      assert !StartsWith(t, "&lt;") && !StartsWith(t, "&gt;");
      assert StartsWith(t, "&quot;");
    } else if c == '\'' {
      NotEntity(t, '#');
      assert !StartsWith(t, "&lt;") && !StartsWith(t, "&gt;") && !StartsWith(t, "&quot;");
      assert StartsWith(t, "&#x27;");
    } else {
      assert t[0] == c;
      assert !StartsWith(t, "&amp;") && !StartsWith(t, "&lt;") && !StartsWith(t, "&gt;");
      assert !StartsWith(t, "&quot;") && !StartsWith(t, "&#x27;");
      assert t[1..] == rest;
    }
  }

  /** The second character tells the entities apart. */
  lemma NotEntity(t: string, second: char)
    requires |t| >= 2 && t[1] == second
    ensures second != 'a' ==> !StartsWith(t, "&amp;")
    ensures second != 'l' ==> !StartsWith(t, "&lt;")
    ensures second != 'g' ==> !StartsWith(t, "&gt;")
    ensures second != 'q' ==> !StartsWith(t, "&quot;")
    ensures second != '#' ==> !StartsWith(t, "&#x27;")
  {
    if StartsWith(t, "&amp;") { assert t[..5][1] == 'a'; }
    if StartsWith(t, "&lt;") { assert t[..4][1] == 'l'; }
    if StartsWith(t, "&gt;") { assert t[..4][1] == 'g'; }
    if StartsWith(t, "&quot;") { assert t[..6][1] == 'q'; }
    if StartsWith(t, "&#x27;") { assert t[..6][1] == '#'; }
  }

  /** Escaping loses nothing: unescaping gives the label back. */
  lemma {:induction false} EscapeRoundTrip(s: string)
    ensures HtmlUnescape(HtmlEscape(s)) == s
  {
    if s != "" {
      EscapeRoundTrip(s[1..]);
      UnescapeStep(s[0], HtmlEscape(s[1..]));
      assert [s[0]] + s[1..] == s;
    }
  }

  /** For a search term shorter than two characters a label is escaped and
      nothing is highlighted. */
  function HighlightShort(searchText: string, text: string): (r: string)
    requires |Strip(searchText)| < 2
    ensures HtmlUnescape(r) == text
    ensures '<' !in r && '>' !in r && '"' !in r && '\'' !in r
    ensures WellEscaped(r)
  {
    EscapeRoundTrip(text);
    HtmlEscape(text)
  }
}
