// The text side of the lightweight quick-capture entry point: deriving the
// target page from a colon path, formatting one capture entry, splicing it
// under the inbox section of a page, choosing vault and page mode, and
// naming the attachment files copied next to the page.

module CaptureLite {
  import opened Strings

  /** File suffix of a page, as the file adapter defines it. */
  const PageSuffix := ".md"
  /** The section every capture lands in. */
  const SectionTitle := "## Inbox / Captures"
  const PageRequired := "Custom capture page is required."
  const RemotePrefix := "remote::"

  // ---------------------------------------------------------------------
  // Capture text

  /** The `--text` argument, if it holds anything besides whitespace. */
  function ParseHotkeyText(textArg: Option<string>): (r: Option<string>)
    ensures r.Some? <==> textArg.Some? && !IsBlank(textArg.value)
    ensures r.Some? ==> r.value != "" && Strip(r.value) == r.value
    ensures r.Some? ==> r.value == Strip(textArg.value)
  {
    if textArg.Some? && !IsBlank(textArg.value) then
      StripIdempotent(textArg.value);
      StripSpec(textArg.value);
      Some(Strip(textArg.value))
    else None
  }

  // ---------------------------------------------------------------------
  // Page references

  /** The reference with surrounding whitespace, leading colons and any
      `#anchor` removed. */
  function CleanReference(ref: string): (r: string)
    ensures '#' !in r
  {
    var c0 := Strip(ref);
    var c1 := if StartsWith(c0, ":") then LStripChar(c0, ':') else c0;
    CutAnchor(c1)
  }

  /** The part before any `#`, stripped. */
  function CutAnchor(c1: string): (r: string)
    ensures '#' !in r
  {
    var c2 := if '#' in c1 then Split(c1, '#')[0] else c1;
    StripKeepsOut(c2, '#');
    Strip(c2)
  }

  /** The non-blank pieces, stripped, in order. */
  function Segments(pieces: seq<string>): (r: seq<string>)
    ensures |r| <= |pieces|
    ensures forall i :: 0 <= i < |r| ==> r[i] != ""
  {
    if pieces == [] then []
    else
      var rest := Segments(pieces[1..]);
      StripSpec(pieces[0]);
      if IsBlank(pieces[0]) then rest else [Strip(pieces[0])] + rest
  }

  /** Only blank pieces leave no segment. */
  lemma {:induction false} SegmentsEmpty(pieces: seq<string>)
    ensures Segments(pieces) == [] <==> forall j :: 0 <= j < |pieces| ==> IsBlank(pieces[j])
  {
    if pieces != [] {
      SegmentsEmpty(pieces[1..]);
      assert forall j :: 1 <= j < |pieces| ==> pieces[j] == pieces[1..][j - 1];
    }
  }

  /** A character absent from every piece is absent from every segment. */
  lemma {:induction false} SegmentsKeepOut(pieces: seq<string>, c: char)
    requires forall j :: 0 <= j < |pieces| ==> c !in pieces[j]
    ensures forall i :: 0 <= i < |Segments(pieces)| ==> c !in Segments(pieces)[i]
  {
    if pieces != [] {
      SegmentsKeepOut(pieces[1..], c);
      StripKeepsOut(pieces[0], c);
    }
  }

  /** Every `_` of every part becomes a space. */
  function UnderscoresToSpaces(parts: seq<string>): (r: seq<string>)
    ensures |r| == |parts|
    ensures forall i :: 0 <= i < |r| ==> |r[i]| == |parts[i]| && '_' !in r[i]
    ensures forall i :: 0 <= i < |r| && ':' !in parts[i] ==> ':' !in r[i]
    ensures forall i :: 0 <= i < |r| && '#' !in parts[i] ==> '#' !in r[i]
  {
    seq(|parts|, i requires 0 <= i < |parts| => Despace(parts[i]))
  }

  /** One part with its underscores turned into spaces. */
  function Despace(p: string): (q: string)
    ensures |q| == |p| && '_' !in q
    ensures ':' !in p ==> ':' !in q
    ensures '#' !in p ==> '#' !in q
  {
    ReplaceCharPointwise(p, '_', ' ');
    ReplaceChar(p, '_', " ")
  }

  /** The folder names a colon path stands for. */
  function PageParts(colonPath: string): (r: seq<string>)
    ensures forall i :: 0 <= i < |r| ==> r[i] != "" && ':' !in r[i] && '#' !in r[i] && '_' !in r[i]
  {
    var cleaned := CleanReference(colonPath);
    var pieces := Split(cleaned, ':');
    assert forall j :: 0 <= j < |pieces| ==> '#' !in pieces[j] by {
      JoinSplit(cleaned, ':');
      forall j | 0 <= j < |pieces| ensures '#' !in pieces[j] {
        PieceIn(pieces, j, ":");
      }
    }
    SegmentsKeepOut(pieces, ':');
    SegmentsKeepOut(pieces, '#');
    UnderscoresToSpaces(Segments(pieces))
  }

  /** Each part of a join occurs inside it, so a character absent from the
      join is absent from the part. */
  lemma {:induction false} PieceIn(parts: seq<string>, j: nat, sep: string)
    requires j < |parts|
    ensures forall c :: c in parts[j] ==> c in Join(parts, sep)
  {
    if j > 0 {
      PieceIn(parts[1..], j - 1, sep);
      assert Join(parts, sep) == parts[0] + sep + Join(parts[1..], sep);
    } else if |parts| > 1 {
      assert Join(parts, sep) == parts[0] + sep + Join(parts[1..], sep);
    }
  }

  /** `"A:B:C"` names the page `/A/B/C/C.md`. */
  function ColonToPagePath(colonPath: string): (r: Result<string>)
    ensures r.Err? <==> PageParts(colonPath) == []
    ensures r.Err? ==> r.message == PageRequired
    ensures r.Ok? ==> StartsWith(r.value, "/") && EndsWith(r.value, PageSuffix)
    ensures r.Ok? ==>
      var parts := PageParts(colonPath);
      r.value == "/" + Join(parts, "/") + "/" + parts[|parts| - 1] + PageSuffix
  {
    var cleaned := CleanReference(colonPath);
    if cleaned == "" then
      assert Split(cleaned, ':') == [""];
      Err(PageRequired)
    else
      var parts := PageParts(colonPath);
      if parts == [] then Err(PageRequired)
      else Ok("/" + Join(parts, "/") + "/" + parts[|parts| - 1] + PageSuffix)
  }

  /** Blank input, colons only, or an anchor only name no page. */
  lemma ColonPathErrors(s: string)
    ensures IsBlank(s) ==> ColonToPagePath(s).Err?
    ensures (forall i :: 0 <= i < |s| ==> s[i] == ':') ==> ColonToPagePath(s).Err?
    ensures Strip(s) != "" && Strip(s)[0] == '#' ==> ColonToPagePath(s).Err?
  {
    StripSpec(s);
    if s != "" && forall i :: 0 <= i < |s| ==> s[i] == ':' {
      NoEdgeSpaceStrip(s);
      var t := LStripChar(s, ':');
      assert t == "";
      assert CleanReference(s) == "";
    }
    var c0 := Strip(s);
    if c0 != "" && c0[0] == '#' {
      assert !StartsWith(c0, ":");
      assert Split(c0, '#')[0] == "";
      assert CleanReference(s) == "";
    }
  }

  // ---------------------------------------------------------------------
  // What a colon path depends on

  /** The stripped, non-blank `:`-pieces of a text. */
  function ColonSegments(s: string): seq<string>
  {
    Segments(Split(s, ':'))
  }

  /** The text before the first `#`. */
  function BeforeAnchor(s: string): (r: string)
    ensures '#' !in r
  {
    Split(s, '#')[0]
  }

  /** Text made of colons and whitespace only. */
  predicate Filler(s: string)
  {
    forall i :: 0 <= i < |s| ==> s[i] == ':' || IsSpace(s[i])
  }

  /** A whitespace character in front changes neither the blankness nor
      the strip of a piece. */
  lemma SpaceInFront(c: char, p: string)
    requires IsSpace(c)
    ensures Strip([c] + p) == Strip(p)
    ensures IsBlank([c] + p) <==> IsBlank(p)
  {
    assert ([c] + p)[1..] == p;
    assert forall i :: 1 <= i < |[c] + p| ==> ([c] + p)[i] == p[i - 1];
  }

  /** Whitespace behind changes neither the blankness nor the strip of a
      piece. */
  lemma SpaceBehind(p: string, w: string)
    requires AllSpace(w)
    ensures Strip(p + w) == Strip(p)
    ensures IsBlank(p + w) <==> IsBlank(p)
  {
    TrimLeftConcat(p, w);
    if AllSpace(p) {
      TrimLeftAllSpace(p);
      TrimLeftAllSpace(w);
      assert AllSpace(p + w);
    } else {
      TrimRightConcat(TrimLeft(p), w);
      var k :| 0 <= k < |p| && !IsSpace(p[k]);
      assert (p + w)[k] == p[k];
    }
  }

  /** Segments are taken piece by piece. */
  lemma {:induction false} SegmentsAppend(a: seq<string>, b: seq<string>)
    ensures Segments(a + b) == Segments(a) + Segments(b)
    decreases |a|
  {
    if a == [] {
      assert a + b == b;
    } else {
      assert (a + b)[0] == a[0];
      assert (a + b)[1..] == a[1..] + b;
      SegmentsAppend(a[1..], b);
    }
  }

  /** Colons and whitespace in front of a text change none of its colon
      segments: a colon only opens an empty piece, whitespace is stripped. */
  lemma {:induction false} FillerIgnored(pre: string, s: string)
    requires Filler(pre)
    ensures ColonSegments(pre + s) == ColonSegments(s)
    decreases |pre|
  {
    if pre != "" {
      var c := pre[0];
      var t := pre[1..] + s;
      assert pre + s == [c] + t;
      assert forall i :: 1 <= i < |pre| ==> pre[1..][i - 1] == pre[i];
      FillerIgnored(pre[1..], s);
      FillerStep(c, t);
    } else {
      assert pre + s == s;
    }
  }

  /** One colon or whitespace character in front changes no colon segment. */
  lemma FillerStep(c: char, t: string)
    requires c == ':' || IsSpace(c)
    ensures ColonSegments([c] + t) == ColonSegments(t)
  {
    var pieces := Split(t, ':');
    assert ([c] + t)[1..] == t;
    if c == ':' {
      assert Split([c] + t, ':') == [""] + pieces;
      assert ([""] + pieces)[1..] == pieces;
    } else {
      var q := [c] + pieces[0];
      assert Split([c] + t, ':') == [q] + pieces[1..];
      SpaceInFront(c, pieces[0]);
      assert ([q] + pieces[1..])[1..] == pieces[1..];
      assert Segments([q] + pieces[1..]) == Segments(pieces);
    }
  }

  /** Whitespace behind a text changes none of its colon segments. */
  lemma TrailingSpaceIgnored(s: string, w: string)
    requires AllSpace(w)
    ensures ColonSegments(s + w) == ColonSegments(s)
  {
    var a := Split(s, ':');
    var n := |a| - 1;
    assert ':' !in w by {
      forall i | 0 <= i < |w| ensures w[i] != ':' { assert IsSpace(w[i]); }
    }
    SplitExtend(s, w, ':');
    assert a == a[..n] + [a[n]];
    SegmentsAppend(a[..n], [a[n] + w]);
    SegmentsAppend(a[..n], [a[n]]);
    SpaceBehind(a[n], w);
    assert [a[n] + w][1..] == [a[n]][1..] == [];
  }

  /** Stripping a text changes none of its colon segments. */
  lemma StripIgnored(s: string)
    ensures ColonSegments(Strip(s)) == ColonSegments(s)
  {
    var t := TrimLeft(s);
    TrimLeftSpec(s);
    assert s == s[..|s| - |t|] + t;
    FillerIgnored(s[..|s| - |t|], t);
    var r := TrimRight(t);
    TrimRightSpec(t);
    assert t == r + t[|r|..];
    TrailingSpaceIgnored(r, t[|r|..]);
  }

  /** Dropping a leading run of colons changes no colon segment. */
  lemma ColonRunIgnored(u: string)
    ensures ColonSegments(LStripChar(u, ':')) == ColonSegments(u)
  {
    var w := LStripChar(u, ':');
    assert u == u[..|u| - |w|] + w;
    FillerIgnored(u[..|u| - |w|], w);
  }

  /** The cleaned reference has the colon segments of the text before its
      first `#`: stripping, the leading colons and the anchor only ever
      remove blank pieces or whitespace around a piece. */
  lemma CleanSegments(x: string)
    ensures ColonSegments(CleanReference(x)) == ColonSegments(BeforeAnchor(x))
  {
    var b := BeforeAnchor(x);
    SplitHead(x, '#');
    if |b| == |x| {
      assert b == x;
      CleanWithoutAnchor(x);
    } else {
      var rest := x[|b| + 1..];
      assert x == b + ['#'] + rest;
      CleanWithAnchor(b, rest);
    }
  }

  lemma CleanWithoutAnchor(x: string)
    requires '#' !in x
    ensures ColonSegments(CleanReference(x)) == ColonSegments(x)
  {
    var c0 := Strip(x);
    var c1 := if StartsWith(c0, ":") then LStripChar(c0, ':') else c0;
    StripKeepsOut(x, '#');
    assert '#' !in c1;
    assert CleanReference(x) == Strip(c1);
    StripIgnored(c1);
    ColonRunIgnored(c0);
    StripIgnored(x);
  }

  /** With an anchor, stripping the whole text leaves the text before the
      `#` stripped on the left only. */
  lemma StripAroundAnchor(b: string, rest: string)
    ensures Strip(b + ['#'] + rest) == TrimLeft(b) + (['#'] + TrimRight(rest))
  {
    var t := ['#'] + rest;
    var u := TrimLeft(b);
    assert TrimLeft(b + ['#'] + rest) == u + ['#'] + rest by {
      assert b + ['#'] + rest == b + t;
      assert TrimLeft(t) == t;
      TrimLeftConcat(b, t);
      if AllSpace(b) {
        TrimLeftAllSpace(b);
      }
      assert u + t == u + ['#'] + rest;
    }
    StripAfterLeft(b + ['#'] + rest, u, '#', rest);
  }

  /** Once the left end is trimmed up to a non-space character, stripping
      only trims what follows it. */
  lemma StripAfterLeft(x: string, u: string, c: char, rest: string)
    requires !IsSpace(c) && TrimLeft(x) == u + [c] + rest
    ensures Strip(x) == u + ([c] + TrimRight(rest))
  {
    TrimRightAfter(u, c, rest);
    assert u + [c] + TrimRight(rest) == u + ([c] + TrimRight(rest));
  }

  /** Dropping the leading colons in front of an anchor leaves the anchor
      where it is. */
  lemma ColonsBeforeAnchor(u: string, tail: string)
    requires tail != "" && tail[0] == '#'
    ensures (if StartsWith(u + tail, ":") then LStripChar(u + tail, ':') else u + tail)
         == (if StartsWith(u, ":") then LStripChar(u, ':') else u) + tail
  {
    if u == "" {
      assert u + tail == tail;
    } else {
      assert (u + tail)[0] == u[0];
    }
    LStripCharConcat(u, tail, ':');
  }

  lemma CleanWithAnchor(b: string, rest: string)
    requires '#' !in b
    ensures ColonSegments(CleanReference(b + ['#'] + rest)) == ColonSegments(b)
  {
    var u := TrimLeft(b);
    var w := if StartsWith(u, ":") then LStripChar(u, ':') else u;
    CleanOfAnchored(b, rest);
    StripIgnored(w);
    assert ColonSegments(w) == ColonSegments(u) by {
      if StartsWith(u, ":") { ColonRunIgnored(u); }
    }
    LeadingSpaceIgnored(b);
  }

  /** Leading white space does not change the segments. */
  lemma LeadingSpaceIgnored(s: string)
    ensures ColonSegments(TrimLeft(s)) == ColonSegments(s)
  {
    var u := TrimLeft(s);
    TrimLeftSpec(s);
    assert s == s[..|s| - |u|] + u;
    FillerIgnored(s[..|s| - |u|], u);
  }

  /** With an anchor, the cleaned reference is the text before it with
      whitespace and leading colons stripped. */
  lemma CleanOfAnchored(b: string, rest: string)
    requires '#' !in b
    ensures var u := TrimLeft(b);
      CleanReference(b + ['#'] + rest) == Strip(if StartsWith(u, ":") then LStripChar(u, ':') else u)
  {
    var x := b + ['#'] + rest;
    var u := TrimLeft(b);
    var tail := ['#'] + TrimRight(rest);
    var w := if StartsWith(u, ":") then LStripChar(u, ':') else u;
    assert CleanReference(x) == CutAnchor(w + tail) by {
      StripAroundAnchor(b, rest);
      ColonsBeforeAnchor(u, tail);
      CleanOfStripped(x, u + tail);
    }
    assert CutAnchor(w + tail) == Strip(w) by {
      HashNotLeft(b);
      CutBeforeAnchor(w, TrimRight(rest));
    }
  }

  lemma HashNotLeft(b: string)
    requires '#' !in b
    ensures '#' !in TrimLeft(b)
  {
    TrimLeftSpec(b);
    var u := TrimLeft(b);
    assert u == b[|b| - |u|..];
  }

  /** Cleaning only looks at the stripped reference. */
  lemma CleanOfStripped(x: string, c0: string)
    requires Strip(x) == c0
    ensures CleanReference(x) == CutAnchor(if StartsWith(c0, ":") then LStripChar(c0, ':') else c0)
  {
  }

  /** Cutting at the anchor keeps the stripped text before it. */
  lemma CutBeforeAnchor(w: string, rest: string)
    requires '#' !in w
    ensures CutAnchor(w + (['#'] + rest)) == Strip(w)
  {
    assert w + (['#'] + rest) == w + ['#'] + rest;
    SplitFirstPiece(w, '#', rest);
    assert (w + (['#'] + rest))[|w|] == '#';
  }

  /** The folders a colon path names are the colon segments of the text
      before its first `#`, with underscores read as spaces. */
  lemma PartsBeforeAnchor(x: string)
    ensures PageParts(x) == UnderscoresToSpaces(ColonSegments(BeforeAnchor(x)))
  {
    CleanSegments(x);
  }

  /** The page a colon path names depends only on its folder names. */
  lemma SamePartsSamePath(a: string, b: string)
    requires PageParts(a) == PageParts(b)
    ensures ColonToPagePath(a) == ColonToPagePath(b)
  {
  }

  /** Everything from the first `#` on is ignored. */
  lemma AnchorIgnored(s: string, anchor: string)
    requires '#' !in s
    ensures ColonToPagePath(s + "#" + anchor) == ColonToPagePath(s)
  {
    SplitFirstPiece(s, '#', anchor);
    SplitNoSep(s, '#');
    PartsBeforeAnchor(s + "#" + anchor);
    PartsBeforeAnchor(s);
    SamePartsSamePath(s + "#" + anchor, s);
  }

  /** Any run of colons and whitespace in front is ignored. */
  lemma LeadingColonIgnored(pre: string, s: string)
    requires Filler(pre)
    ensures ColonToPagePath(pre + s) == ColonToPagePath(s)
  {
    assert '#' !in pre;
    SplitPrefix(pre, s, '#');
    FillerIgnored(pre, BeforeAnchor(s));
    PartsBeforeAnchor(pre + s);
    PartsBeforeAnchor(s);
    SamePartsSamePath(pre + s, s);
  }

  /** A page reference: absolute paths are kept, slash paths are anchored,
      colon paths are converted. */
  function ResolveCustomPageRef(pageRef: string): (r: Result<string>)
    ensures r.Ok? ==> StartsWith(r.value, "/")
    ensures r.Err? <==> IsBlank(pageRef) || ('/' !in Strip(pageRef) && ColonToPagePath(Strip(pageRef)).Err?)
    ensures StartsWith(Strip(pageRef), "/") ==> r == Ok(Strip(pageRef))
    ensures '/' in Strip(pageRef) && !StartsWith(Strip(pageRef), "/") ==> r == Ok("/" + Strip(pageRef))
    ensures !IsBlank(pageRef) && '/' !in Strip(pageRef) ==> r == ColonToPagePath(Strip(pageRef))
  {
    StripSpec(pageRef);
    var raw := Strip(pageRef);
    if raw == "" then Err(PageRequired)
    else if StartsWith(raw, "/") then Ok(raw)
    else if '/' in raw then Ok("/" + raw)
    else ColonToPagePath(raw)
  }

  // ---------------------------------------------------------------------
  // Entry formatting

  /** An attachment as saved next to the page. */
  datatype SavedImage = SavedImage(name: Option<string>, width: Option<int>)

  const WidthCap := "{width=600}"

  /** A markdown image line; wide images are capped at 600 pixels. */
  function FormatImageLink(name: string, width: Option<int>): (r: string)
    ensures StartsWith(r, "  ![](./" + name + ")")
    ensures EndsWith(r, WidthCap) <==> width.Some? && width.value > 600
    ensures |r| == |"  ![](./" + name + ")"| + (if width.Some? && width.value > 600 then |WidthCap| else 0)
  {
    var link := "  ![](./" + name + ")";
    if width.Some? && width.value > 600 then link + WidthCap
    else
      assert link[|link| - 1] == ')';
      assert !EndsWith(link, WidthCap) by {
        if |link| >= |WidthCap| {
          assert link[|link| - |WidthCap|..][|WidthCap| - 1] == ')';
        }
      }
      link
  }

  /** The attachments that have a name, in order. */
  function Named(images: seq<SavedImage>): (r: seq<SavedImage>)
    ensures |r| <= |images|
    ensures forall i :: 0 <= i < |r| ==> Truthy(r[i].name)
    ensures (forall i :: 0 <= i < |images| ==> Truthy(images[i].name)) ==> r == images
    ensures (forall i :: 0 <= i < |images| ==> !Truthy(images[i].name)) ==> r == []
  {
    if images == [] then []
    else if Truthy(images[0].name) then [images[0]] + Named(images[1..])
    else Named(images[1..])
  }

  /** One image line per named attachment. */
  function ImageLines(images: seq<SavedImage>): (r: seq<string>)
    ensures |r| == |Named(images)|
    ensures forall i :: 0 <= i < |r| ==>
      r[i] == FormatImageLink(Named(images)[i].name.value, Named(images)[i].width)
  {
    var named := Named(images);
    seq(|named|, i requires 0 <= i < |named| => FormatImageLink(named[i].name.value, named[i].width))
  }

  /** The text's lines with trailing whitespace removed. */
  function BodyLines(text: string): (r: seq<string>)
    ensures |r| == |SplitLines(text)|
    ensures forall i :: 0 <= i < |r| ==> r[i] == TrimRight(SplitLines(text)[i])
  {
    var lines := SplitLines(text);
    seq(|lines|, i requires 0 <= i < |lines| => TrimRight(lines[i]))
  }

  /** The markdown lines of one capture: a timestamped bullet for the first
      text line, the image links, the remaining text lines indented, then a
      separator. */
  function BuildEntry(text: string, timestamp: string, images: seq<SavedImage>): (r: seq<string>)
    ensures r == [] <==> text == ""
    ensures r != [] ==>
      var lines := BodyLines(text);
      var links := ImageLines(images);
      |r| == |lines| + |links| + 2
      && r[0] == "- *" + timestamp + "* - " + Strip(lines[0])
      && r[1..1 + |links|] == links
      && r[1 + |links|..|r| - 2] == Continuation(lines)
      && r[|r| - 2] == "" && r[|r| - 1] == "---"
  {
    var lines := BodyLines(text);
    if lines == [] then []
    else
      var first := "- *" + timestamp + "* - " + Strip(lines[0]);
      var links := ImageLines(images);
      EntryShape(first, links, Continuation(lines));
      [first] + links + Continuation(lines) + ["", "---"]
  }

  /** The text lines after the first, each indented by two spaces. */
  function Continuation(lines: seq<string>): (r: seq<string>)
    requires lines != []
    ensures |r| == |lines| - 1
    ensures forall j :: 0 <= j < |r| ==> r[j] == "  " + lines[j + 1]
  {
    seq(|lines| - 1, i requires 0 <= i < |lines| - 1 => "  " + lines[i + 1])
  }

  /** Where the pieces of an entry sit in its lines. */
  lemma EntryShape(first: string, links: seq<string>, rest: seq<string>)
    ensures var r := [first] + links + rest + ["", "---"];
      && |r| == |links| + |rest| + 3
      && r[0] == first
      && r[1..1 + |links|] == links
      && r[1 + |links|..|r| - 2] == rest
      && r[|r| - 2] == "" && r[|r| - 1] == "---"
  {
    var r := [first] + links + rest + ["", "---"];
    assert r[1 + |links|..|r| - 2] == rest;
  }

  // ---------------------------------------------------------------------
  // Splicing the entry into the page

  /** The first line that strips to `title`, or -1. */
  function FindStripped(lines: seq<string>, title: string): (r: int)
    ensures -1 <= r < |lines|
    ensures r == -1 <==> forall i :: 0 <= i < |lines| ==> Strip(lines[i]) != title
    ensures r >= 0 ==> Strip(lines[r]) == title
    ensures forall i :: 0 <= i < r ==> Strip(lines[i]) != title
  {
    if lines == [] then -1
    else if Strip(lines[0]) == title then 0
    else
      var rest := FindStripped(lines[1..], title);
      assert forall i :: 1 <= i < |lines| ==> lines[i] == lines[1..][i - 1];
      if rest == -1 then -1 else rest + 1
  }

  /** The line index of the inbox section header, or -1. */
  function HeaderIndex(lines: seq<string>): int
  {
    FindStripped(lines, SectionTitle)
  }

  /** The first line at or after `from` that starts a heading, or the end. */
  function NextHeading(lines: seq<string>, from: nat): (r: nat)
    requires from <= |lines|
    ensures from <= r <= |lines|
    ensures forall i :: from <= i < r ==> !StartsWith(lines[i], "#")
    ensures r < |lines| ==> StartsWith(lines[r], "#")
    decreases |lines| - from
  {
    if from == |lines| then from
    else if StartsWith(lines[from], "#") then from
    else NextHeading(lines, from + 1)
  }

  /** The page after adding the entry lines to its inbox section, creating
      the section at the end when the page has none. */
  function AppendSection(content: string, entries: seq<string>): (r: string)
    ensures entries == [] ==> r == content
    ensures entries != [] ==> EndsWith(r, "\n")
    ensures entries != [] && HeaderIndex(SplitLines(content)) == -1 ==>
      var trimmed := RStripChar(content, '\n');
      r == trimmed + (if trimmed != "" then "\n\n" else "") + SectionTitle + "\n" + Join(entries, "\n") + "\n"
    ensures entries != [] && HeaderIndex(SplitLines(content)) >= 0 ==>
      var joined := Spliced(SplitLines(content), HeaderIndex(SplitLines(content)), entries);
      (EndsWith(joined, "\n") ==> r == joined) && (!EndsWith(joined, "\n") ==> r == joined + "\n")
  {
    if entries == [] then content
    else
      var lines := SplitLines(content);
      var h := HeaderIndex(lines);
      if h == -1 then NewSection(content, entries)
      else AppendUnder(lines, h, entries)
  }

  /** The lines with the entries inserted before the first heading after
      line `h`, joined by line breaks. */
  function Spliced(lines: seq<string>, h: nat, entries: seq<string>): string
    requires h < |lines|
  {
    var k := NextHeading(lines, h + 1);
    Join(lines[..k] + entries + lines[k..], "\n")
  }

  /** The spliced lines with a final line break, added only when missing. */
  function AppendUnder(lines: seq<string>, h: nat, entries: seq<string>): (r: string)
    requires h < |lines|
    ensures var joined := Spliced(lines, h, entries);
      StartsWith(r, joined) && |r| <= |joined| + 1 && EndsWith(r, "\n") &&
      (EndsWith(joined, "\n") ==> r == joined) && (!EndsWith(joined, "\n") ==> r == joined + "\n")
  {
    Terminated(Spliced(lines, h, entries))
  }

  /** The page with the section header and the entries added at its end,
      after one blank line unless the page is empty. */
  function NewSection(content: string, entries: seq<string>): (r: string)
    ensures EndsWith(r, "\n")
    ensures var trimmed := RStripChar(content, '\n');
      r == trimmed + (if trimmed != "" then "\n\n" else "") + SectionTitle + "\n" + Join(entries, "\n") + "\n"
  {
    var trimmed := RStripChar(content, '\n');
    var spacer := if trimmed != "" then "\n\n" else "";
    NewlineEnds(trimmed + spacer + SectionTitle + "\n" + Join(entries, "\n"));
    trimmed + spacer + SectionTitle + "\n" + Join(entries, "\n") + "\n"
  }

  /** The text with a final line break added unless it has one. */
  function Terminated(s: string): (r: string)
    ensures StartsWith(r, s) && |r| <= |s| + 1 && EndsWith(r, "\n")
    ensures EndsWith(s, "\n") ==> r == s
    ensures !EndsWith(s, "\n") ==> r == s + "\n"
  {
    NewlineEnds(s);
    if EndsWith(s, "\n") then s else s + "\n"
  }

  /** Adding a line break keeps the text as a prefix and ends with it. */
  lemma NewlineEnds(a: string)
    ensures StartsWith(a + "\n", a) && EndsWith(a + "\n", "\n")
    ensures StartsWith(a, a)
  {
    assert (a + "\n")[..|a|] == a;
  }

  /** A line written between line breaks is read back as a line. */
  lemma LineSurvives(a: string, line: string, rest: string)
    requires '\n' !in line
    requires a == "" || a[|a| - 1] == '\n'
    ensures line in SplitLines(a + line + "\n" + rest)
  {
    var s := a + line + "\n" + rest;
    SplitAppend(line, '\n', rest);
    SplitNoSep(line, '\n');
    assert line + "\n" + rest == line + ['\n'] + rest;
    var pieces := Split(s, '\n');
    var i: nat;
    if a == "" {
      assert s == line + ['\n'] + rest;
      i := 0;
    } else {
      var a' := a[..|a| - 1];
      assert s == a' + ['\n'] + (line + ['\n'] + rest);
      SplitAppend(a', '\n', line + ['\n'] + rest);
      i := |Split(a', '\n')|;
    }
    assert pieces[i] == line && i < |pieces| - 1;
    assert SplitLines(s)[i] == line;
  }

  /** A page holding the bare header line has the section. */
  lemma HeaderFound(lines: seq<string>, i: nat)
    requires i < |lines| && lines[i] == SectionTitle
    ensures HeaderIndex(lines) >= 0
  {
    NoEdgeSpaceStrip(lines[i]);
  }

  /** After the section is created, it is found again: a second capture
      goes under the same header instead of adding another. */
  lemma AppendCreatesSection(content: string, entries: seq<string>)
    requires entries != []
    requires HeaderIndex(SplitLines(content)) == -1
    ensures HeaderIndex(SplitLines(AppendSection(content, entries))) >= 0
  {
    var trimmed := RStripChar(content, '\n');
    var spacer := if trimmed != "" then "\n\n" else "";
    TitleLineFound(trimmed, spacer, SectionTitle, Join(entries, "\n"));
  }

  lemma TitleLineFound(trimmed: string, spacer: string, title: string, body: string)
    requires title == SectionTitle
    requires spacer == "" || spacer == "\n\n"
    requires trimmed != "" ==> spacer == "\n\n"
    ensures HeaderIndex(SplitLines(trimmed + spacer + title + "\n" + body + "\n")) >= 0
  {
    var a := trimmed + spacer;
    var rest := body + "\n";
    assert trimmed + spacer + title + "\n" + body + "\n" == a + title + "\n" + rest;
    LineSurvives(a, title, rest);
    var lines := SplitLines(a + title + "\n" + rest);
    var i :| 0 <= i < |lines| && lines[i] == title;
    HeaderFound(lines, i);
  }

  // ---------------------------------------------------------------------
  // Vault and page mode

  /** A local vault to capture into: the argument, else the configured
      quick-capture vault, else the last opened vault. A remote reference
      never resolves. */
  function ResolveLocalVaultPath(vaultArg: Option<string>, configured: Option<string>, last: Option<string>): (r: Option<string>)
    ensures r.Some? ==> !StartsWith(r.value, RemotePrefix)
    ensures Truthy(vaultArg) ==> r == (if StartsWith(vaultArg.value, RemotePrefix) then None else vaultArg)
    ensures !Truthy(vaultArg) && Truthy(configured) ==>
      r == (if StartsWith(configured.value, RemotePrefix) then None else configured)
    ensures !Truthy(vaultArg) && !Truthy(configured) ==>
      r == (if last.Some? && !StartsWith(last.value, RemotePrefix) then last else None)
  {
    if Truthy(vaultArg) then
      if StartsWith(vaultArg.value, RemotePrefix) then None else vaultArg
    else if Truthy(configured) then
      if StartsWith(configured.value, RemotePrefix) then None else configured
    else if last.Some? && !StartsWith(last.value, RemotePrefix) then last
    else None
  }

  datatype PageMode = Today | Custom

  /** The capture target: an explicit page wins, then the configured mode. */
  function ResolvePageMode(pageArg: Option<string>, configuredMode: Option<string>, configuredPage: Option<string>): (r: (PageMode, Option<string>))
    ensures r.0 == Today <==> !Truthy(pageArg) && configuredMode != Some("custom")
    ensures r.0 == Today ==> r.1 == None
    ensures Truthy(pageArg) ==> r.1 == pageArg
    ensures !Truthy(pageArg) && r.0 == Custom ==> r.1 == configuredPage
  {
    if Truthy(pageArg) then (Custom, pageArg)
    else if configuredMode == Some("custom") then (Custom, configuredPage)
    else (Today, None)
  }

  /** The page a capture goes to: today's journal page, or a page path. */
  datatype Target = Journal | PagePath(path: string)

  /** The page a resolved mode writes to. A custom mode needs a page
      reference that resolves; an unset or unresolvable one is an error. */
  function CaptureTarget(mode: PageMode, pageRef: Option<string>): (r: Result<Target>)
    ensures mode == Today ==> r == Ok(Journal)
    ensures mode == Custom ==> (r.Ok? <==> Truthy(pageRef) && ResolveCustomPageRef(pageRef.value).Ok?)
    ensures mode == Custom && r.Ok? ==>
      r.value == PagePath(ResolveCustomPageRef(pageRef.value).value) && StartsWith(r.value.path, "/")
  {
    if mode == Today then Ok(Journal)
    else if !Truthy(pageRef) then Err(PageRequired)
    else
      var p := ResolveCustomPageRef(pageRef.value);
      if p.Err? then Err(p.message) else Ok(PagePath(p.value))
  }

  /** How a capture run ends: its exit code and the page it wrote to, if
      it got as far as writing. */
  datatype RunOutcome = RunOutcome(exitCode: int, target: Option<Target>)

  /** The text a lite run goes on with: the text argument, else what was
      typed into the overlay. */
  function CapturedText(textArg: Option<string>, overlayText: Option<string>): (r: Option<string>)
    ensures Truthy(r) <==> (textArg.Some? && !IsBlank(textArg.value)) || Truthy(overlayText)
    ensures textArg.Some? && !IsBlank(textArg.value) ==> r == Some(Strip(textArg.value))
  {
    OrElse(ParseHotkeyText(textArg), overlayText)
  }

  /** The decisions of one lite capture run. The vault settings, the text
      typed into the overlay (when no text argument was given) and whether
      writing the page succeeds are inputs. */
  function RunLite(vaultArg: Option<string>, pageArg: Option<string>, textArg: Option<string>,
                   configuredVault: Option<string>, lastVault: Option<string>,
                   configuredMode: Option<string>, configuredPage: Option<string>,
                   overlayText: Option<string>, writeSucceeds: bool): (r: RunOutcome)
    ensures r.exitCode == 0 || r.exitCode == 1
    // a page is written exactly when there is a local vault, some text and
    // a page the mode resolves to, and it is that page
    ensures var m := ResolvePageMode(pageArg, configuredMode, configuredPage);
      r.target.Some? <==>
        Truthy(ResolveLocalVaultPath(vaultArg, configuredVault, lastVault))
        && Truthy(CapturedText(textArg, overlayText)) && CaptureTarget(m.0, m.1).Ok?
    ensures var m := ResolvePageMode(pageArg, configuredMode, configuredPage);
      r.target.Some? ==> r.target.value == CaptureTarget(m.0, m.1).value
    // a run that writes succeeds exactly when the write does
    ensures r.target.Some? ==> (r.exitCode == 0 <==> writeSucceeds)
    // a run that writes nothing succeeds exactly when there was a vault but
    // no text: the user closed the overlay
    ensures r.target.None? ==>
      (r.exitCode == 0 <==> Truthy(ResolveLocalVaultPath(vaultArg, configuredVault, lastVault))
                            && !Truthy(CapturedText(textArg, overlayText)))
  {
    var path := ResolveLocalVaultPath(vaultArg, configuredVault, lastVault);
    if !Truthy(path) then RunOutcome(1, None)
    else
      var text := CapturedText(textArg, overlayText);
      if !Truthy(text) then RunOutcome(0, None)
      else
        var mode := ResolvePageMode(pageArg, configuredMode, configuredPage);
        if mode.0 == Custom && !Truthy(mode.1) then RunOutcome(1, None)
        else
          var target := CaptureTarget(mode.0, mode.1);
          if target.Err? then RunOutcome(1, None)
          else RunOutcome(if writeSucceeds then 0 else 1, Some(target.value))
  }

  /** With non-blank text, a local vault and no custom page, a run writes
      today's journal page and succeeds exactly when the write does. */
  lemma CaptureLandsInJournal(vaultArg: Option<string>, textArg: Option<string>,
                              configuredVault: Option<string>, lastVault: Option<string>,
                              configuredMode: Option<string>, overlayText: Option<string>, writeSucceeds: bool)
    requires Truthy(ResolveLocalVaultPath(vaultArg, configuredVault, lastVault))
    requires textArg.Some? && !IsBlank(textArg.value)
    requires configuredMode != Some("custom")
    ensures RunLite(vaultArg, None, textArg, configuredVault, lastVault, configuredMode, None, overlayText, writeSucceeds)
         == RunOutcome(if writeSucceeds then 0 else 1, Some(Journal))
  {
  }

  /** Blank text and an empty overlay write nothing and exit cleanly. */
  lemma BlankTextWritesNothing(vaultArg: Option<string>, pageArg: Option<string>, textArg: Option<string>,
                               configuredVault: Option<string>, lastVault: Option<string>,
                               configuredMode: Option<string>, configuredPage: Option<string>, writeSucceeds: bool)
    requires Truthy(ResolveLocalVaultPath(vaultArg, configuredVault, lastVault))
    requires textArg.None? || IsBlank(textArg.value)
    ensures RunLite(vaultArg, pageArg, textArg, configuredVault, lastVault, configuredMode, configuredPage, None, writeSucceeds)
         == RunOutcome(0, None)
  {
  }

  /** With a local vault and no text argument, what is typed into the
      overlay is written to today's journal page. */
  lemma OverlayTextLandsInJournal(vaultArg: Option<string>, textArg: Option<string>,
                                  configuredVault: Option<string>, lastVault: Option<string>,
                                  configuredMode: Option<string>, overlayText: Option<string>, writeSucceeds: bool)
    requires Truthy(ResolveLocalVaultPath(vaultArg, configuredVault, lastVault))
    requires textArg.None? || IsBlank(textArg.value)
    requires Truthy(overlayText)
    requires configuredMode != Some("custom")
    ensures RunLite(vaultArg, None, textArg, configuredVault, lastVault, configuredMode, None, overlayText, writeSucceeds)
         == RunOutcome(if writeSucceeds then 0 else 1, Some(Journal))
  {
  }

  // ---------------------------------------------------------------------
  // The overlay call as the source writes it

  /** A lite run as written. When there is no text argument the run builds
      the overlay with `vault_options` and `selected_vault`, keyword
      arguments the overlay's constructor does not take; the `TypeError`
      is not caught, so the process exits with status 1 before anything is
      written. With a text argument the overlay is never built and the run
      is the intended one. */
  function RunLiteAsWritten(vaultArg: Option<string>, pageArg: Option<string>, textArg: Option<string>,
                            configuredVault: Option<string>, lastVault: Option<string>,
                            configuredMode: Option<string>, configuredPage: Option<string>,
                            writeSucceeds: bool): (r: RunOutcome)
    ensures r.exitCode == 0 || r.exitCode == 1
    // without a text argument no run writes or succeeds
    ensures !Truthy(ParseHotkeyText(textArg)) ==> r == RunOutcome(1, None)
    // so, unlike the intended run, a clean exit always means a write
    ensures r.exitCode == 0 ==> r.target.Some? && writeSucceeds
  {
    var path := ResolveLocalVaultPath(vaultArg, configuredVault, lastVault);
    if !Truthy(path) then RunOutcome(1, None)
    else if !Truthy(ParseHotkeyText(textArg)) then RunOutcome(1, None)
    else RunLite(vaultArg, pageArg, textArg, configuredVault, lastVault,
                 configuredMode, configuredPage, None, writeSucceeds)
  }

  /** With a text argument the run as written and the intended run agree,
      whatever the overlay would have returned. */
  lemma AsWrittenAgreesWithTextArg(vaultArg: Option<string>, pageArg: Option<string>, textArg: Option<string>,
                                   configuredVault: Option<string>, lastVault: Option<string>,
                                   configuredMode: Option<string>, configuredPage: Option<string>,
                                   overlayText: Option<string>, writeSucceeds: bool)
    requires textArg.Some? && !IsBlank(textArg.value)
    ensures RunLiteAsWritten(vaultArg, pageArg, textArg, configuredVault, lastVault,
                             configuredMode, configuredPage, writeSucceeds)
         == RunLite(vaultArg, pageArg, textArg, configuredVault, lastVault,
                    configuredMode, configuredPage, overlayText, writeSucceeds)
  {
  }

  /** The discrepancy on one input: `--vault /v` with no `--text`. As
      written the run fails with nothing written; as intended the note
      typed into the overlay goes to the journal, and a dismissed overlay
      exits cleanly. */
  lemma OverlayCallFails()
    ensures RunLiteAsWritten(Some("/v"), None, None, None, None, None, None, true) == RunOutcome(1, None)
    ensures RunLite(Some("/v"), None, None, None, None, None, None, Some("idea"), true) == RunOutcome(0, Some(Journal))
    ensures RunLite(Some("/v"), None, None, None, None, None, None, None, true) == RunOutcome(0, None)
  {
    assert !StartsWith("/v", RemotePrefix);
  }

  // ---------------------------------------------------------------------
  // Attachment names

  /** Characters a saved attachment name may contain. */
  predicate NameChar(c: char)
  {
    ('A' <= c <= 'Z') || ('a' <= c <= 'z') || ('0' <= c <= '9') || c in "._()-"
  }

  predicate SafeName(s: string)
  {
    (forall i :: 0 <= i < |s| ==> NameChar(s[i])) && s != "" && s != "." && s != ".."
  }

  /** Every run of whitespace becomes one `_`. */
  function CollapseSpace(s: string): (r: string)
    ensures forall i :: 0 <= i < |r| ==> !IsSpace(r[i])
    ensures forall i :: 0 <= i < |r| ==> r[i] == '_' || r[i] in s
    ensures (forall i :: 0 <= i < |s| ==> !IsSpace(s[i])) ==> r == s
    ensures s != "" ==> r != ""
    decreases |s|
  {
    if s == "" then ""
    else if IsSpace(s[0]) then
      TrimLeftSpec(s[1..]);
      "_" + CollapseSpace(TrimLeft(s[1..]))
    else
      assert forall c :: c in s[1..] ==> c in s;
      [s[0]] + CollapseSpace(s[1..])
  }

  /** Every character outside the allowed set becomes `_`. */
  function ReplaceDisallowed(s: string): (r: string)
    ensures |r| == |s|
    ensures forall i :: 0 <= i < |r| ==> r[i] == (if NameChar(s[i]) then s[i] else '_')
  {
    if s == "" then "" else [if NameChar(s[0]) then s[0] else '_'] + ReplaceDisallowed(s[1..])
  }

  /** A file name that is safe to create next to the page. */
  function SanitizeName(name: string): (r: string)
    ensures SafeName(r)
    ensures SafeName(name) ==> r == name
  {
    var c := ReplaceChar(ReplaceChar(Strip(name), '\\', "_"), '/', "_");
    var d := ReplaceDisallowed(CollapseSpace(c));
    SafeNameUntouched(name);
    if d == "" || d == "." || d == ".." then "attachment" else d
  }

  /** Each cleaning step leaves a safe name as it is. */
  lemma SafeNameUntouched(s: string)
    ensures SafeName(s) ==>
      ReplaceDisallowed(CollapseSpace(ReplaceChar(ReplaceChar(Strip(s), '\\', "_"), '/', "_"))) == s
  {
    if SafeName(s) {
      assert forall i :: 0 <= i < |s| ==> !IsSpace(s[i]) && s[i] != '\\' && s[i] != '/';
      NoEdgeSpaceStrip(s);
      var c := ReplaceChar(ReplaceChar(s, '\\', "_"), '/', "_");
      assert c == s;
      assert CollapseSpace(c) == s;
    }
  }

  /** Sanitising a sanitised name changes nothing. */
  lemma SanitizeIdempotent(name: string)
    ensures SanitizeName(SanitizeName(name)) == SanitizeName(name)
  {
  }

  /** Python's `PurePath(name).suffix`: from the last dot, unless the dot
      starts or ends the name. */
  function Suffix(name: string): (r: string)
    ensures r == "" || (r[0] == '.' && |r| < |name| && r == name[|name| - |r|..])
  {
    var i := RFindChar(name, '.');
    if 0 < i < |name| - 1 then name[i..] else ""
  }

  /** Python's `PurePath(name).stem`: the name without its suffix. */
  function Stem(name: string): (r: string)
    ensures r + Suffix(name) == name
  {
    name[..|name| - |Suffix(name)|]
  }

  /** The `k`-th alternative to a taken name: `stem_k.suffix`. */
  function NumberedName(name: string, k: nat): string
  {
    Stem(name) + "_" + NatToString(k) + Suffix(name)
  }

  lemma NumberedNameInjective(name: string)
    ensures forall a: nat, b: nat :: NumberedName(name, a) == NumberedName(name, b) ==> a == b
  {
    forall a: nat, b: nat | NumberedName(name, a) == NumberedName(name, b) ensures a == b {
      var p := Stem(name) + "_";
      var q := Suffix(name);
      var x := NumberedName(name, a);
      assert |NatToString(a)| == |NatToString(b)|;
      assert NatToString(a) == x[|p|..|x| - |q|];
      assert NatToString(b) == x[|p|..|x| - |q|];
      IntToStringInjective(a, b);
    }
  }

  /** The `k`-th pasted-image name: `paste_image_00k.png`. */
  function PasteName(k: nat): string
  {
    "paste_image_" + ZeroPad3(k) + ".png"
  }

  lemma PasteNameInjective()
    ensures forall a: nat, b: nat :: PasteName(a) == PasteName(b) ==> a == b
  {
    forall a: nat, b: nat | PasteName(a) == PasteName(b) ensures a == b {
      var x := PasteName(a);
      assert ZeroPad3(a) == x[12..|x| - 4];
      assert ZeroPad3(b) == x[12..|x| - 4];
      ZeroPad3Injective(a, b);
    }
  }

  /** The names `name(1) .. name(n - 1)`. */
  ghost function NamesBelow(name: nat -> string, n: nat): set<string>
  {
    set j: nat | 1 <= j < n :: name(j)
  }

  lemma {:induction false} NamesBelowCount(name: nat -> string, n: nat)
    requires forall a: nat, b: nat :: name(a) == name(b) ==> a == b
    requires n >= 1
    ensures |NamesBelow(name, n)| == n - 1
  {
    if n > 1 {
      NamesBelowCount(name, n - 1);
      assert NamesBelow(name, n) == NamesBelow(name, n - 1) + {name(n - 1)};
      assert name(n - 1) !in NamesBelow(name, n - 1);
    } else {
      assert NamesBelow(name, n) == {};
    }
  }

  /** The smallest `k >= 1` whose name is free. It exists because the names
      are all different and only finitely many are taken. */
  method FirstFree(existing: set<string>, name: nat -> string) returns (k: nat)
    requires forall a: nat, b: nat :: name(a) == name(b) ==> a == b
    ensures k >= 1 && name(k) !in existing
    ensures forall j :: 1 <= j < k ==> name(j) in existing
  {
    k := 1;
    while name(k) in existing
      invariant k >= 1
      invariant forall j :: 1 <= j < k ==> name(j) in existing
      decreases |existing| + 1 - k
    {
      NamesBelowCount(name, k + 1);
      assert NamesBelow(name, k + 1) <= existing;
      SubsetCard(NamesBelow(name, k + 1), existing);
      k := k + 1;
    }
  }

  lemma SubsetCard(a: set<string>, b: set<string>)
    requires a <= b
    ensures |a| <= |b|
  {
    assert b == a + (b - a);
  }

  /** A fresh attachment name for a copied file: the sanitised name if free,
      else the first free numbered variant. The chosen name joins the taken
      set. */
  method UniqueName(base: string, existing: set<string>) returns (name: string, taken: set<string>)
    ensures name !in existing && taken == existing + {name}
    ensures SanitizeName(base) !in existing ==> name == SanitizeName(base)
    ensures SanitizeName(base) in existing ==>
      exists k: nat :: k >= 1 && name == NumberedName(SanitizeName(base), k) &&
        forall j :: 1 <= j < k ==> NumberedName(SanitizeName(base), j) in existing
  {
    var s := SanitizeName(base);
    if s !in existing {
      return s, existing + {s};
    }
    NumberedNameInjective(s);
    var numbered := (j: nat) => NumberedName(s, j);
    var k := FirstFree(existing, numbered);
    assert forall j: nat :: numbered(j) == NumberedName(s, j);
    name := NumberedName(s, k);
    taken := existing + {name};
  }

  /** A fresh name for a pasted image. */
  method NextPasteName(existing: set<string>) returns (name: string, taken: set<string>)
    ensures name !in existing && taken == existing + {name}
    ensures exists k: nat :: k >= 1 && name == PasteName(k) &&
              forall j :: 1 <= j < k ==> PasteName(j) in existing
  {
    PasteNameInjective();
    var k := FirstFree(existing, PasteName);
    name := PasteName(k);
    taken := existing + {name};
  }

  // ---------------------------------------------------------------------
  // Examples

  lemma SplitExamples()
    ensures Split("A:B", ':') == ["A", "B"]
    ensures Split("A::B", ':') == ["A", "", "B"]
  {
    SplitAppend("A", ':', "B");
    assert "A" + [':'] + "B" == "A:B";
    SplitAppend("A", ':', ":B");
    assert "A" + [':'] + ":B" == "A::B";
    SplitAppend("", ':', "B");
    assert "" + [':'] + "B" == ":B";
    SplitNoSep("A", ':');
    SplitNoSep("B", ':');
    SplitNoSep("", ':');
  }

  lemma CleanExamples(ab: string, aab: string)
    requires ab == "A:B" && aab == "A::B"
    ensures CleanReference(ab) == ab
    ensures CleanReference(aab) == aab
  {
    NoEdgeSpaceStrip(ab);
    NoEdgeSpaceStrip(aab);
  }

  lemma PartsExamples(ab: string, aab: string)
    requires ab == "A:B" && aab == "A::B"
    ensures PageParts(ab) == ["A", "B"]
    ensures PageParts(aab) == ["A", "B"]
  {
    CleanExamples(ab, aab);
    SplitExamples();
    PartsOfClean(ab);
    PartsOfClean(aab);
    SegmentsExample("A", "B");
  }

  lemma PartsOfClean(s: string)
    requires CleanReference(s) == s
    ensures PageParts(s) == UnderscoresToSpaces(Segments(Split(s, ':')))
  {
  }

  lemma SegmentsExample(a: string, b: string)
    requires a == "A" && b == "B"
    ensures Segments([a, b]) == [a, b]
    ensures Segments([a, "", b]) == [a, b]
    ensures UnderscoresToSpaces([a, b]) == [a, b]
  {
    NoEdgeSpaceStrip(a);
    NoEdgeSpaceStrip(b);
    assert Segments([b]) == [b];
    assert [a, "", b][1..] == ["", b];
    assert ["", b][1..] == [b];
    assert Segments(["", b]) == [b];
    assert UnderscoresToSpaces([b]) == [b];
  }

  lemma PathOfParts(s: string)
    requires PageParts(s) == ["A", "B"]
    ensures ColonToPagePath(s) == Ok("/A/B/B.md")
  {
    var parts := PageParts(s);
    var r := ColonToPagePath(s);
    assert r.Ok? && r.value == "/" + Join(parts, "/") + "/" + parts[|parts| - 1] + PageSuffix;
    JoinTwo("A", "B", "/");
    SlashPath("A", "B");
  }

  lemma SlashPath(a: string, b: string)
    requires a == "A" && b == "B"
    ensures "/" + (a + "/" + b) + "/" + b + PageSuffix == "/A/B/B.md"
  {
  }

  lemma JoinTwo(a: string, b: string, sep: string)
    ensures Join([a, b], sep) == a + sep + b
  {
    assert [a, b][1..] == [b];
  }

  /** `"A:B"` names `/A/B/B.md`, and an empty segment changes nothing. */
  lemma ColonExample(ab: string, aab: string)
    requires ab == "A:B" && aab == "A::B"
    ensures ColonToPagePath(ab) == Ok("/A/B/B.md")
    ensures ColonToPagePath(aab) == Ok("/A/B/B.md")
  {
    PartsExamples(ab, aab);
    PathOfParts(ab);
    PathOfParts(aab);
  }

  lemma AnchorExample(ab: string)
    requires ab == "A:B"
    ensures ColonToPagePath(ab + "#h") == ColonToPagePath(ab)
  {
    var h := "h";
    NoEdgeSpaceStrip(ab);
    AnchorIgnored(ab, h);
    assert ab + "#" + h == ab + "#h";
  }

  lemma LeadingColonExample(aab: string)
    requires aab == "A::B"
    ensures ColonToPagePath(":" + aab) == ColonToPagePath(aab)
  {
    LeadingColonIgnored(":", aab);
  }

  /** `"A:B#h"`, `":A::B"` and `"A:B"` all name `/A/B/B.md`: an anchor, a
      leading colon and an empty segment change nothing. */
  lemma SameTarget(ab: string, aab: string)
    requires ab == "A:B" && aab == "A::B"
    ensures ColonToPagePath(ab + "#h") == Ok("/A/B/B.md")
    ensures ColonToPagePath(":" + aab) == Ok("/A/B/B.md")
    ensures ColonToPagePath(ab) == Ok("/A/B/B.md")
  {
    ColonExample(ab, aab);
    AnchorExample(ab);
    LeadingColonExample(aab);
  }
}
