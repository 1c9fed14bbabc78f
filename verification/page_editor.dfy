// The decision logic of the pop-up page editor: the window title, the
// dirty test and the save guards, font-size clamping, the heading pop-up
// that cycles through the page's headings, and the filterable heading
// picker with its placement on screen.

module PageEditor {
  import opened Strings

  const AppSuffix := " | StillPoint Editor"
  const ReadOnlyMark := " | Read-Only"
  const HeadingMode := "heading"
  const RuleKind := "hr"
  const MinFont := 6
  const MaxFont := 24

  // ---------------------------------------------------------------------
  // Window title

  /** The last component of a slash-separated path that is neither empty
      nor `"."`, or `""`. */
  function LastName(segments: seq<string>): (r: string)
    ensures r == "" || r in segments
  {
    if segments == [] then ""
    else
      var last := segments[|segments| - 1];
      if last != "" && last != "." then last
      else LastName(segments[..|segments| - 1])
  }

  /** The file name of a path, as a path object reports it. */
  function PathName(path: string): (r: string)
    ensures '/' !in r
  {
    LastName(Split(path, '/'))
  }

  /** The name of `dir/child` is `child`. */
  lemma PathNameOfChild(dir: string, child: string)
    requires '/' !in child && child != "" && child != "."
    ensures PathName(dir + "/" + child) == child
  {
    assert dir + "/" + child == dir + ['/'] + child;
    SplitAppend(dir, '/', child);
    SplitNoSep(child, '/');
  }

  /** The title: the file name (or the whole path when it has none), a
      read-only mark when the page cannot be written, and the application
      name. */
  function WindowTitle(sourcePath: string, readOnly: bool): (r: string)
    ensures var name := PathName(sourcePath);
      var caption := if name != "" then name else sourcePath;
      StartsWith(r, caption) && EndsWith(r, AppSuffix) &&
      (readOnly ==> r == caption + ReadOnlyMark + AppSuffix) &&
      (!readOnly ==> |r| == |caption| + |AppSuffix|)
  {
    var name := PathName(sourcePath);
    var caption := if name != "" then name else sourcePath;
    var r := if readOnly then caption + ReadOnlyMark + AppSuffix else caption + AppSuffix;
    assert r[..|caption|] == caption;
    assert r[|r| - |AppSuffix|..] == AppSuffix;
    r
  }

  /** A page in a folder is titled by its file name alone. */
  lemma TitleOfPage(dir: string, file: string, readOnly: bool)
    requires '/' !in file && file != "" && file != "."
    ensures StartsWith(WindowTitle(dir + "/" + file, readOnly), file)
    ensures readOnly ==> WindowTitle(dir + "/" + file, readOnly) == file + ReadOnlyMark + AppSuffix
  {
    PathNameOfChild(dir, file);
  }

  // ---------------------------------------------------------------------
  // Saving

  /** The editor text, the text last saved (`None` before the first save)
      and whether the page is read-only. */
  datatype Editor = Editor(content: string, lastSaved: Option<string>, readOnly: bool)

  predicate IsDirty(e: Editor)
  {
    e.content != OrEmpty(e.lastSaved)
  }

  /** Whether a save may go ahead, and whether the read-only warning is
      shown: never for an automatic save. */
  function EnsureWritable(readOnly: bool, auto: bool): (r: (bool, bool))
    ensures r.0 <==> !readOnly
    ensures r.1 <==> readOnly && !auto
    ensures !(r.0 && r.1)
  {
    if !readOnly then (true, false)
    else if auto then (false, false)
    else (false, true)
  }

  /** The outcome of a save request: the editor afterwards, whether a write
      was sent, whether the read-only warning or the failure message was
      shown. */
  datatype SaveOutcome = SaveOutcome(editor: Editor, wrote: bool, warned: bool, failureShown: bool)

  /** A save request. `writeOk` is the answer of the server to the write.
      Nothing is written when the text is unchanged or the page is
      read-only; after a successful write the text counts as saved. */
  function SaveCurrentFile(e: Editor, auto: bool, writeOk: bool): (r: SaveOutcome)
    ensures r.wrote <==> IsDirty(e) && !e.readOnly
    ensures r.warned <==> IsDirty(e) && e.readOnly && !auto
    ensures r.wrote && writeOk ==> r.editor == e.(lastSaved := Some(e.content)) && !IsDirty(r.editor)
    ensures !(r.wrote && writeOk) ==> r.editor == e
    ensures r.failureShown <==> r.wrote && !writeOk && !auto
  {
    if !IsDirty(e) then SaveOutcome(e, false, false, false)
    else
      var (ok, warn) := EnsureWritable(e.readOnly, auto);
      if !ok then SaveOutcome(e, false, warn, false)
      else if !writeOk then SaveOutcome(e, true, false, !auto)
      else SaveOutcome(e.(lastSaved := Some(e.content)), true, false, false)
  }

  /** Saving twice in a row writes once. */
  lemma SaveTwiceWritesOnce(e: Editor, auto: bool, auto': bool, ok': bool)
    ensures var first := SaveCurrentFile(e, auto, true);
      !SaveCurrentFile(first.editor, auto', ok').wrote
  {
  }

  /** A read-only page is never written, whatever the trigger. */
  lemma ReadOnlyNeverWritten(e: Editor, auto: bool, ok: bool)
    requires e.readOnly
    ensures !SaveCurrentFile(e, auto, ok).wrote && SaveCurrentFile(e, auto, ok).editor == e
  {
  }

  // ---------------------------------------------------------------------
  // Font size

  function Clamp(lo: int, hi: int, x: int): (r: int)
    requires lo <= hi
    ensures lo <= r <= hi
    ensures lo <= x <= hi ==> r == x
    ensures x < lo ==> r == lo
    ensures x > hi ==> r == hi
  {
    if x < lo then lo else if x > hi then hi else x
  }

  /** The new font size and whether it was saved. Whatever the size was
      before, afterwards it lies in [6, 24]; nothing is saved when the
      clamped size equals the current one. */
  function AdjustFontSize(size: int, delta: int): (r: (int, bool))
    ensures MinFont <= r.0 <= MaxFont
    ensures r.1 <==> r.0 != size
    ensures MinFont <= size + delta <= MaxFont ==> r.0 == size + delta
    ensures size + delta > MaxFont ==> r.0 == MaxFont
    ensures size + delta < MinFont ==> r.0 == MinFont
  {
    var n := Clamp(MinFont, MaxFont, size + delta);
    if n == size then (size, false) else (n, true)
  }

  /** Growing and then shrinking by one step comes back, away from the
      upper bound. */
  lemma FontStepBack(size: int)
    requires MinFont <= size < MaxFont
    ensures AdjustFontSize(AdjustFontSize(size, 1).0, -1).0 == size
  {
  }

  /** At a bound, a further step the same way changes and saves nothing. */
  lemma FontAtBounds()
    ensures AdjustFontSize(MaxFont, 1) == (MaxFont, false)
    ensures AdjustFontSize(MinFont, -1) == (MinFont, false)
  {
  }

  // ---------------------------------------------------------------------
  // Heading pop-up

  /** A heading of the page's outline. `kind` is `"hr"` for a horizontal
      rule. */
  datatype Heading = Heading(title: Option<string>, line: int, level: int, position: int, kind: Option<string>)

  /** The outline entries the pop-up cycles through: present ones that
      are not horizontal rules, in order. An empty entry is `None`. */
  function Candidates(toc: seq<Option<Heading>>): (r: seq<Heading>)
    ensures forall h :: h in r <==> Some(h) in toc && h.kind != Some(RuleKind)
    ensures |r| <= |toc|
  {
    if toc == [] then []
    else
      var rest := Candidates(toc[1..]);
      assert forall h :: Some(h) in toc <==> Some(h) == toc[0] || Some(h) in toc[1..];
      if toc[0].Some? && toc[0].value.kind != Some(RuleKind) then [toc[0].value] + rest
      else rest
  }

  /** The candidates keep outline order: those of a concatenation are
      those of each part, one after the other. */
  lemma {:induction false} CandidatesAppend(a: seq<Option<Heading>>, b: seq<Option<Heading>>)
    ensures Candidates(a + b) == Candidates(a) + Candidates(b)
    decreases |a|
  {
    if a == [] {
      assert a + b == b;
    } else {
      assert (a + b)[0] == a[0];
      assert (a + b)[1..] == a[1..] + b;
      CandidatesAppend(a[1..], b);
    }
  }

  /** A single outline entry is a candidate exactly when it is present and
      not a horizontal rule. */
  lemma CandidatesOne(e: Option<Heading>)
    ensures Candidates([e]) == if e.Some? && e.value.kind != Some(RuleKind) then [e.value] else []
  {
    assert [e][1..] == [];
  }

  /** The pop-up: the items shown, the highlighted index and the mode. */
  datatype Popup = Popup(items: seq<Heading>, index: int, mode: Option<string>)

  const Hidden := Popup([], -1, None)

  /** Hidden, or showing headings with the index on one of them. */
  predicate Valid(p: Popup)
  {
    p == Hidden || (p.items != [] && 0 <= p.index < |p.items| && p.mode == Some(HeadingMode))
  }

  /** One press of the cycling key. Other modes and an outline without
      headings change nothing; entering heading mode starts at the first
      item; in heading mode an index off the list restarts at 0, and
      otherwise it moves one step, wrapping around. */
  function CyclePopup(p: Popup, toc: seq<Option<Heading>>, mode: string, reverse: bool): (r: Popup)
    ensures mode != HeadingMode || Candidates(toc) == [] ==> r == p
    ensures mode == HeadingMode && Candidates(toc) != [] ==>
      r.items == Candidates(toc) && r.mode == Some(HeadingMode) && 0 <= r.index < |r.items| &&
      (p.mode != Some(mode) || p.index < 0 || p.index >= |r.items| ==> r.index == 0) &&
      (p.mode == Some(mode) && 0 <= p.index < |r.items| ==> r.index == StepIndex(p.index, |r.items|, reverse))
  {
    if mode != HeadingMode then p
    else
      var items := Candidates(toc);
      if items == [] then p
      else if p.mode != Some(mode) then Popup(items, 0, Some(mode))
      else if p.index < 0 || p.index >= |items| then Popup(items, 0, p.mode)
      else
        Popup(items, StepIndex(p.index, |items|, reverse), p.mode)
  }

  /** One step through `n` items, wrapping around at either end. */
  function StepIndex(i: int, n: int, reverse: bool): (r: int)
    requires 0 <= i < n
    ensures 0 <= r < n
    ensures reverse ==> r == (if i == 0 then n - 1 else i - 1)
    ensures !reverse ==> r == (if i == n - 1 then 0 else i + 1)
  {
    var delta := if reverse then -1 else 1;
    WrapStep(i + delta, n);
    (i + delta) % n
  }

  /** Python's `%` for a step at most one past either end. */
  lemma WrapStep(j: int, n: int)
    requires 0 < n && -1 <= j <= n
    ensures j % n == (if j == -1 then n - 1 else if j == n then 0 else j)
  {
    if j == -1 {
      assert (n - 1) + (-1) * n == j;
    } else if j == n {
      assert 0 + 1 * n == j;
    }
  }

  /** Cycling keeps the pop-up valid. */
  lemma CycleKeepsValid(p: Popup, toc: seq<Option<Heading>>, mode: string, reverse: bool)
    requires Valid(p)
    ensures Valid(CyclePopup(p, toc, mode, reverse))
  {
  }

  /** A step forward and a step back return to the same heading. */
  lemma CycleThereAndBack(p: Popup, toc: seq<Option<Heading>>)
    requires p.mode == Some(HeadingMode) && 0 <= p.index < |Candidates(toc)|
    ensures CyclePopup(CyclePopup(p, toc, HeadingMode, false), toc, HeadingMode, true).index == p.index
  {
  }

  /** Hiding resets the pop-up. */
  function HidePopup(p: Popup): (r: Popup)
    ensures Valid(r) && r.items == [] && r.index == -1 && r.mode == None
  {
    Hidden
  }

  /** Activating the highlighted entry hides the pop-up and yields the
      heading to move to, if any. Without items, with a negative index or
      without a mode it only hides. */
  function ActivateSelection(p: Popup): (r: (Popup, Option<Heading>))
    requires p.items != [] && p.index >= 0 && Truthy(p.mode) ==> p.index < |p.items|
    ensures r.0 == Hidden
    ensures r.1.Some? <==> p.items != [] && p.index >= 0 && p.mode == Some(HeadingMode)
    ensures r.1.Some? ==> r.1.value == p.items[p.index]
  {
    if p.items == [] || p.index < 0 || !Truthy(p.mode) then (HidePopup(p), None)
    else
      var target := p.items[p.index];
      if p.mode == Some(HeadingMode) then (HidePopup(p), Some(target)) else (HidePopup(p), None)
  }

  /** A valid pop-up that shows headings always yields its highlighted
      heading, which is a candidate of the outline it was filled from. */
  lemma ActivateAfterCycle(p: Popup, toc: seq<Option<Heading>>, reverse: bool)
    requires Valid(p) && Candidates(toc) != []
    ensures var q := CyclePopup(p, toc, HeadingMode, reverse);
      var t := ActivateSelection(q).1;
      t.Some? && Some(t.value) in toc && t.value.kind != Some(RuleKind)
  {
    var q := CyclePopup(p, toc, HeadingMode, reverse);
    assert q.items[q.index] in Candidates(toc);
  }

  /** Where the cursor goes for a heading: its recorded position when
      positive, else the start of its line when that line exists, never
      below 0. */
  function CursorTarget(h: Heading, lineStart: Option<int>): (r: int)
    ensures r >= 0
    ensures h.position > 0 ==> r == h.position
    ensures h.position <= 0 && lineStart.Some? ==> r == (if lineStart.value > 0 then lineStart.value else 0)
    ensures h.position <= 0 && lineStart.None? ==> r == 0
  {
    var pos := if h.position > 0 then h.position
               else if lineStart.Some? then lineStart.value
               else h.position;
    if pos > 0 then pos else 0
  }

  // ---------------------------------------------------------------------
  // Heading picker

  function ClampLevel(level: int): (r: int)
    ensures 1 <= r <= 5
  {
    Clamp(1, 5, level)
  }

  function Spaces(n: nat): (r: string)
    ensures |r| == n && forall i :: 0 <= i < n ==> r[i] == ' '
  {
    if n == 0 then "" else " " + Spaces(n - 1)
  }

  function Title(h: Heading): (r: string)
    ensures r != ""
  {
    if Truthy(h.title) then h.title.value else "(heading)"
  }

  /** A row of the picker: four spaces per level below the first, the
      title and the line number. */
  function Row(h: Heading): (r: string)
    ensures StartsWith(r, Spaces(4 * (ClampLevel(h.level) - 1)) + Title(h))
    ensures EndsWith(r, "  (line " + IntToString(h.line) + ")")
    ensures |r| == 4 * (ClampLevel(h.level) - 1) + |Title(h)| + 9 + |IntToString(h.line)|
  {
    var prefix := Spaces(4 * (ClampLevel(h.level) - 1)) + Title(h);
    var suffix := "  (line " + IntToString(h.line) + ")";
    var r := prefix + suffix;
    ConcatEnds(prefix, suffix);
    r
  }

  /** The line number can be read back from the end of a row. */
  lemma RowNamesLine(h: Heading)
    ensures var r := Row(h); var n := IntToString(h.line);
      |n| + 1 <= |r| && ParseInt(r[|r| - |n| - 1..|r| - 1]) == Some(h.line)
  {
    var r := Row(h);
    var n := IntToString(h.line);
    var suffix := "  (line " + n + ")";
    assert r[|r| - |suffix|..] == suffix;
    assert r[|r| - |n| - 1..|r| - 1] == suffix[8..8 + |n|];
    assert suffix[8..8 + |n|] == n;
    IntRoundTrip(h.line);
  }

  /** The picker's filter: the query, lower-cased and stripped, must occur
      in the lower-cased title; an empty query keeps everything. */
  predicate Matches(needle: string, h: Heading)
  {
    needle == "" || Contains(Lower(Title(h)), needle)
  }

  function Needle(query: string): string
  {
    Strip(Lower(query))
  }

  function Filter(headings: seq<Heading>, needle: string): (r: seq<Heading>)
    ensures forall h :: h in r <==> h in headings && Matches(needle, h)
    ensures |r| <= |headings|
  {
    if headings == [] then []
    else
      var rest := Filter(headings[1..], needle);
      assert forall h :: h in headings <==> h == headings[0] || h in headings[1..];
      if Matches(needle, headings[0]) then [headings[0]] + rest else rest
  }

  /** Filtering keeps the outline order: the kept headings of a
      concatenation are those of each part, one after the other. */
  lemma {:induction false} FilterAppend(a: seq<Heading>, b: seq<Heading>, needle: string)
    ensures Filter(a + b, needle) == Filter(a, needle) + Filter(b, needle)
    decreases |a|
  {
    if a == [] {
      assert a + b == b;
    } else {
      assert (a + b)[0] == a[0];
      assert (a + b)[1..] == a[1..] + b;
      FilterAppend(a[1..], b, needle);
    }
  }

  /** A single heading is kept exactly when it matches. */
  lemma FilterOne(h: Heading, needle: string)
    ensures Filter([h], needle) == if Matches(needle, h) then [h] else []
  {
    assert [h][1..] == [];
  }

  /** The rows the picker lists for a query, and the row made current
      (the first one, if any). */
  function Populate(headings: seq<Heading>, query: string): (r: (seq<string>, Option<nat>))
    ensures var kept := Filter(headings, Needle(query));
      |r.0| == |kept| && (forall i :: 0 <= i < |kept| ==> r.0[i] == Row(kept[i]))
    ensures r.1 == (if r.0 == [] then None else Some(0))
  {
    var kept := Filter(headings, Needle(query));
    var rows := seq(|kept|, i requires 0 <= i < |kept| => Row(kept[i]));
    (rows, if rows == [] then None else Some(0))
  }

  /** A blank query lists every heading. */
  lemma {:induction false} BlankQueryKeepsAll(headings: seq<Heading>, query: string)
    requires Needle(query) == ""
    ensures Filter(headings, Needle(query)) == headings
  {
    if headings != [] {
      BlankQueryKeepsAll(headings[1..], query);
    }
  }

  /** An occurrence of `a + b` is an occurrence of `a`. */
  lemma ContainsPrefixOf(t: string, a: string, b: string)
    ensures Contains(t, a + b) ==> Contains(t, a)
  {
    if Contains(t, a + b) {
      var i :| 0 <= i <= |t| - |a + b| && OccursAt(t, a + b, i);
      assert t[i..i + |a|] == t[i..i + |a + b|][..|a|];
      assert OccursAt(t, a, i);
    }
  }

  /** Typing more never brings a heading back: every heading kept for the
      longer needle is kept for its prefix. */
  lemma {:induction false} TypingNarrows(headings: seq<Heading>, a: string, b: string)
    ensures forall h :: h in Filter(headings, a + b) ==> h in Filter(headings, a)
  {
    forall h | h in Filter(headings, a + b)
      ensures h in Filter(headings, a)
    {
      ContainsPrefixOf(Lower(Title(h)), a, b);
    }
  }

  // ---------------------------------------------------------------------
  // Picker placement

  /** The available screen area, the anchor point and the picker's size. */
  datatype Screen = Screen(x: int, y: int, width: int, height: int)

  /** The picker's top-left corner. Horizontally the anchor is clamped into
      the screen; vertically the picker goes above or below the anchor as
      preferred and flips to the other side when it would leave the
      screen. */
  function PickerPosition(s: Screen, ax: int, ay: int, w: int, h: int, preferAbove: bool): (r: (int, int))
    ensures r.0 >= s.x
    ensures w <= s.width ==> r.0 <= s.x + s.width - w
    ensures s.x <= ax <= s.x + s.width - w ==> r.0 == ax
    ensures w <= s.width && ax > s.x + s.width - w ==> r.0 == s.x + s.width - w
    ensures ax < s.x || w > s.width ==> r.0 == s.x
    ensures preferAbove ==> r.1 == (if ay - h - 8 >= s.y then ay - h - 8 else ay + 12)
    ensures !preferAbove ==> r.1 == (if ay + 12 + h <= s.y + s.height then ay + 12 else ay - h - 8)
  {
    var x := if ax < s.x + s.width - w then ax else s.x + s.width - w;
    var x' := if s.x > x then s.x else x;
    var y := if preferAbove then
               (if ay - h - 8 < s.y then ay + 12 else ay - h - 8)
             else
               (if ay + 12 + h > s.y + s.height then ay - h - 8 else ay + 12);
    (x', y)
  }

  /** With room above, a picker that prefers the upper side ends above the
      anchor; with room below, one that prefers the lower side starts
      below it. */
  lemma PickerClearsAnchor(s: Screen, ax: int, ay: int, w: int, h: int)
    requires h >= 0
    ensures ay - h - 8 >= s.y ==> PickerPosition(s, ax, ay, w, h, true).1 + h < ay
    ensures ay + 12 + h <= s.y + s.height ==> PickerPosition(s, ax, ay, w, h, false).1 > ay
  {
  }
}
