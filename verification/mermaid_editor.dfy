// The decision logic of the diagram editor window: the error panel shown in
// place of a failed preview, extracting a diagram from an assistant's reply,
// the dirty and auto-render flags, zoom bounds, shortcut insertion and the
// prompt history.

module MermaidEditor {
  import opened Strings
  import R = MermaidRenderer

  // ---------------------------------------------------------------------
  // Error panel

  /** One message character as it appears in the error panel. */
  function EscapeChar(c: char): string
  {
    if c == '&' then "&amp;"
    else if c == '<' then "&lt;"
    else if c == '>' then "&gt;"
    else if c == '\n' then "<br>"
    else [c]
  }

  /** The message as the panel shows it, character by character. */
  function EscapeEach(s: string): (r: string)
    ensures '\n' !in r
  {
    if s == "" then "" else EscapeChar(s[0]) + EscapeEach(s[1..])
  }

  /** Each line break becomes one `<br>`, the only source of angle
      brackets. */
  lemma {:induction false} AngleCount(s: string)
    ensures multiset(EscapeEach(s))['<'] == multiset(s)['\n']
    ensures multiset(EscapeEach(s))['>'] == multiset(s)['\n']
  {
    if s != "" {
      var c, tail := s[0], s[1..];
      AngleCount(tail);
      CharAngles(c);
      assert EscapeEach(s) == EscapeChar(c) + EscapeEach(tail);
      assert s == [c] + tail;
      CountStep(EscapeChar(c), EscapeEach(tail), c, tail);
    }
  }

  /** Counts add up over one escaped character and the rest. */
  lemma CountStep(e: string, rest: string, c: char, tail: string)
    requires multiset(e)['<'] == multiset(e)['>'] == (if c == '\n' then 1 else 0)
    requires multiset(rest)['<'] == multiset(rest)['>'] == multiset(tail)['\n']
    ensures multiset(e + rest)['<'] == multiset([c] + tail)['\n']
    ensures multiset(e + rest)['>'] == multiset([c] + tail)['\n']
  {
    assert multiset(e + rest) == multiset(e) + multiset(rest);
    assert multiset([c] + tail) == multiset{c} + multiset(tail);
  }

  /** The replacements as they are applied: ampersands first, then angle
      brackets, then line breaks. */
  function EscapeMessage(m: string): string
  {
    ReplaceChar(ReplaceChar(ReplaceChar(ReplaceChar(m, '&', "&amp;"), '<', "&lt;"), '>', "&gt;"), '\n', "<br>")
  }

  lemma CharAngles(c: char)
    ensures multiset(EscapeChar(c))['<'] == (if c == '\n' then 1 else 0)
    ensures multiset(EscapeChar(c))['>'] == (if c == '\n' then 1 else 0)
  {
    if c == '\n' {
      assert EscapeChar(c) == ['<'] + "br" + ['>'];
      BracketAngles("br");
    } else if c == '&' {
      assert EscapeChar(c) == "&amp;";
      NoAngles("&amp;");
    } else if c == '<' {
      assert EscapeChar(c) == "&lt;";
      NoAngles("&lt;");
    } else if c == '>' {
      assert EscapeChar(c) == "&gt;";
      NoAngles("&gt;");
    } else {
      NoAngles([c]);
    }
  }

  lemma NoAngles(e: string)
    requires '<' !in e && '>' !in e
    ensures multiset(e)['<'] == 0 && multiset(e)['>'] == 0
  {
  }

  /** Text wrapped in one pair of angle brackets holds one of each. */
  lemma BracketAngles(mid: string)
    requires '<' !in mid && '>' !in mid
    ensures multiset(['<'] + mid + ['>'])['<'] == 1 && multiset(['<'] + mid + ['>'])['>'] == 1
  {
    assert multiset(['<'] + mid + ['>']) == multiset{'<'} + multiset(mid) + multiset{'>'};
  }

  /** The four replacements in a row escape each character on its own: no
      replacement touches what an earlier one produced. */
  lemma {:induction false} EscapeMessageIsPerChar(m: string)
    ensures EscapeMessage(m) == EscapeEach(m)
  {
    if m != "" {
      EscapeMessageIsPerChar(m[1..]);
      var c := m[0];
      assert m == [c] + m[1..];
      EscapeAppend([c], m[1..]);
      EscapeOneChar(c);
    }
  }

  lemma EscapeAppend(a: string, b: string)
    ensures EscapeMessage(a + b) == EscapeMessage(a) + EscapeMessage(b)
  {
    var a1, b1 := ReplaceChar(a, '&', "&amp;"), ReplaceChar(b, '&', "&amp;");
    ReplaceCharAppend(a, b, '&', "&amp;");
    var a2, b2 := ReplaceChar(a1, '<', "&lt;"), ReplaceChar(b1, '<', "&lt;");
    ReplaceCharAppend(a1, b1, '<', "&lt;");
    var a3, b3 := ReplaceChar(a2, '>', "&gt;"), ReplaceChar(b2, '>', "&gt;");
    ReplaceCharAppend(a2, b2, '>', "&gt;");
    ReplaceCharAppend(a3, b3, '\n', "<br>");
  }

  lemma EscapeOneChar(c: char)
    ensures EscapeMessage([c]) == EscapeChar(c)
  {
    ReplaceCharOne(c, '&', "&amp;");
    if c == '&' {
      ReplaceAbsent("&amp;");
    } else {
      ReplaceCharOne(c, '<', "&lt;");
      if c == '<' {
        ReplaceAbsent("&lt;");
      } else {
        ReplaceCharOne(c, '>', "&gt;");
        if c == '>' {
          assert ReplaceChar("&gt;", '\n', "<br>") == "&gt;";
        } else {
          ReplaceCharOne(c, '\n', "<br>");
        }
      }
    }
  }

  /** An entity survives the later replacements unchanged. */
  lemma ReplaceAbsent(e: string)
    requires '<' !in e && '>' !in e && '\n' !in e
    ensures ReplaceChar(ReplaceChar(ReplaceChar(e, '<', "&lt;"), '>', "&gt;"), '\n', "<br>") == e
  {
  }

  /** Undoing the panel's escaping: line breaks and the three entities
      become characters again. */
  function UnescapeMessage(s: string): string
    decreases |s|
  {
    if s == "" then ""
    else if StartsWith(s, "&amp;") then "&" + UnescapeMessage(s[5..])
    else if StartsWith(s, "&lt;") then "<" + UnescapeMessage(s[4..])
    else if StartsWith(s, "&gt;") then ">" + UnescapeMessage(s[4..])
    else if StartsWith(s, "<br>") then "\n" + UnescapeMessage(s[4..])
    else [s[0]] + UnescapeMessage(s[1..])
  }

  /** The first two characters tell the escapes apart. */
  lemma EscapeShapes(t: string)
    requires |t| >= 2
    ensures StartsWith(t, "&amp;") ==> t[0] == '&' && t[1] == 'a'
    ensures StartsWith(t, "&lt;") ==> t[0] == '&' && t[1] == 'l'
    ensures StartsWith(t, "&gt;") ==> t[0] == '&' && t[1] == 'g'
    ensures StartsWith(t, "<br>") ==> t[0] == '<'
  {
    if StartsWith(t, "&amp;") { assert t[..5][0] == '&' && t[..5][1] == 'a'; }
    if StartsWith(t, "&lt;") { assert t[..4][0] == '&' && t[..4][1] == 'l'; }
    if StartsWith(t, "&gt;") { assert t[..4][0] == '&' && t[..4][1] == 'g'; }
    if StartsWith(t, "<br>") { assert t[..4][0] == '<'; }
  }

  lemma UnescapeStep(c: char, rest: string)
    ensures UnescapeMessage(EscapeChar(c) + rest) == [c] + UnescapeMessage(rest)
  {
    var e := EscapeChar(c);
    var t := e + rest;
    assert t[|e|..] == rest;
    if c == '&' {
      assert StartsWith(t, "&amp;");
    } else if c == '<' {
      EscapeShapes(t);
      assert StartsWith(t, "&lt;");
    } else if c == '>' {
      EscapeShapes(t);
      assert StartsWith(t, "&gt;");
    } else if c == '\n' {
      EscapeShapes(t);
      assert StartsWith(t, "<br>");
    } else {
      assert t[0] == c;
      if |t| >= 2 {
        EscapeShapes(t);
      }
      assert !StartsWith(t, "&amp;") && !StartsWith(t, "&lt;") && !StartsWith(t, "&gt;") && !StartsWith(t, "<br>");
      assert t[1..] == rest;
    }
  }

  /** Reversing the replacements recovers the message. */
  lemma {:induction false} EscapeRoundTrip(m: string)
    ensures UnescapeMessage(EscapeMessage(m)) == m
  {
    EscapeMessageIsPerChar(m);
    EachRoundTrip(m);
  }

  lemma {:induction false} EachRoundTrip(m: string)
    ensures UnescapeMessage(EscapeEach(m)) == m
  {
    if m != "" {
      EachRoundTrip(m[1..]);
      UnescapeStep(m[0], EscapeEach(m[1..]));
      assert [m[0]] + m[1..] == m;
    }
  }

  /** A one-line message leaves no angle bracket in the panel; in general
      the only ones are the line breaks'. */
  lemma NoRawAngles(m: string)
    ensures multiset(EscapeMessage(m))['<'] == multiset(m)['\n']
    ensures '\n' !in m ==> '<' !in EscapeMessage(m) && '>' !in EscapeMessage(m)
  {
    EscapeMessageIsPerChar(m);
    AngleCount(m);
    if '\n' !in m {
      assert multiset(m)['\n'] == 0;
    }
  }

  const ErrorHeading := "Mermaid Render Error"
  const LinePrefix := " (Line "

  /** The panel's heading, naming the line only when it is positive. */
  function ErrorTitle(lineNumber: int): (r: string)
    ensures lineNumber > 0 ==> r == ErrorHeading + LinePrefix + IntToString(lineNumber) + ")"
    ensures lineNumber <= 0 ==> r == ErrorHeading
  {
    ErrorHeading + (if lineNumber > 0 then LinePrefix + IntToString(lineNumber) + ")" else "")
  }

  /** The heading names a line exactly when the number is positive, and
      the number can be read back from it. */
  lemma TitleNamesLine(lineNumber: int)
    ensures |ErrorTitle(lineNumber)| > |ErrorHeading| <==> lineNumber > 0
    ensures lineNumber > 0 ==>
      var t := ErrorTitle(lineNumber);
      ParseInt(t[|ErrorHeading| + |LinePrefix|..|t| - 1]) == Some(lineNumber)
  {
    if lineNumber > 0 {
      var t := ErrorTitle(lineNumber);
      var digits := IntToString(lineNumber);
      assert t[|ErrorHeading| + |LinePrefix|..|t| - 1] == digits;
      IntRoundTrip(lineNumber);
    }
  }

  /** The text parts of the error panel; the rest of the picture is a
      fixed template. */
  datatype ErrorPanel = ErrorPanel(title: string, body: string)

  function ErrorSvg(message: string, lineNumber: int): (r: ErrorPanel)
    ensures UnescapeMessage(r.body) == message
    ensures '\n' !in r.body
    ensures r.title == ErrorTitle(lineNumber)
  {
    EscapeRoundTrip(message);
    EscapeMessageIsPerChar(message);
    ErrorPanel(ErrorTitle(lineNumber), EscapeMessage(message))
  }

  // ---------------------------------------------------------------------
  // Error message and line number

  function SkipSpaces(s: string, i: nat): (r: nat)
    requires i <= |s|
    ensures i <= r <= |s|
    ensures forall j :: i <= j < r ==> IsSpace(s[j])
    ensures r == |s| || !IsSpace(s[r])
    decreases |s| - i
  {
    if i == |s| || !IsSpace(s[i]) then i else SkipSpaces(s, i + 1)
  }

  function SkipDigits(s: string, i: nat): (r: nat)
    requires i <= |s|
    ensures i <= r <= |s|
    ensures forall j :: i <= j < r ==> IsDigit(s[j])
    ensures r == |s| || !IsDigit(s[r])
    decreases |s| - i
  {
    if i == |s| || !IsDigit(s[i]) then i else SkipDigits(s, i + 1)
  }

  /** The number of a `line <digits>` match starting at `i`: the word, at
      least one space, at least one digit. */
  function LineAt(s: string, i: nat): (r: Option<nat>)
    requires i <= |s|
    ensures r.Some? ==> OccursAt(s, "line", i)
  {
    if !OccursAt(s, "line", i) then None
    else
      var j := SkipSpaces(s, i + 4);
      var k := SkipDigits(s, j);
      if j == i + 4 || k == j then None
      else
        assert forall t :: 0 <= t < |s[j..k]| ==> s[j..k][t] == s[j + t];
        Some(ParseDigits(s[j..k]))
  }

  /** The first match at or after `i`. */
  function LineFrom(s: string, i: nat): (r: Option<nat>)
    requires i <= |s|
    ensures r.Some? ==> exists j | i <= j <= |s| :: LineAt(s, j) == r
    decreases |s| - i
  {
    if LineAt(s, i).Some? then LineAt(s, i)
    else if i == |s| then None
    else LineFrom(s, i + 1)
  }

  /** The line number reported by the tool: the first `line <digits>` in
      the lower-cased message, or 0. */
  function LineNumber(message: string): (r: nat)
    ensures r > 0 ==> Contains(Lower(message), "line")
  {
    var s := Lower(message);
    var n := LineFrom(s, 0);
    if n.Some? then n.value else 0
  }

  /** `line <n>` at the start of a message is read back as `n`. */
  lemma LineNumberRead(n: nat, rest: string)
    requires rest == "" || !IsDigit(rest[0])
    requires Lower(rest) == rest
    ensures LineNumber("line " + NatToString(n) + rest) == n
  {
    var digits := NatToString(n);
    var m := "line " + digits + rest;
    LowerKeepsLine(digits, rest);
    LineAtStart(m, digits, rest);
    ParsePrinted(n);
  }

  /** A match at the very start is the one reported. */
  lemma LineAtStart(m: string, digits: string, rest: string)
    requires m == "line " + digits + rest
    requires |digits| >= 1 && forall i :: 0 <= i < |digits| ==> IsDigit(digits[i])
    requires rest == "" || !IsDigit(rest[0])
    ensures LineFrom(m, 0) == Some(ParseDigits(digits))
  {
    assert m[..4] == "line";
    assert OccursAt(m, "line", 0);
    assert m[4] == ' ' && m[5] == digits[0];
    assert SkipSpaces(m, 4) == 5;
    var e := 5 + |digits|;
    assert forall j :: 5 <= j < e ==> m[j] == digits[j - 5];
    assert e < |m| ==> m[e] == rest[0];
    SkipDigitsExact(m, 5, e);
    assert m[5..e] == digits;
  }

  lemma {:induction false} SkipDigitsExact(s: string, i: nat, k: nat)
    requires i <= k <= |s|
    requires forall j :: i <= j < k ==> IsDigit(s[j])
    requires k == |s| || !IsDigit(s[k])
    ensures SkipDigits(s, i) == k
    decreases k - i
  {
    if i < k {
      SkipDigitsExact(s, i + 1, k);
    }
  }

  lemma LowerKeepsLine(digits: string, rest: string)
    requires forall i :: 0 <= i < |digits| ==> IsDigit(digits[i])
    requires Lower(rest) == rest
    ensures Lower("line " + digits + rest) == "line " + digits + rest
  {
    LowerAppend("line " + digits, rest);
    LowerAppend("line ", digits);
    assert Lower(digits) == digits;
    assert Lower("line ") == "line ";
  }

  /** Without the word `line` the number is 0. */
  lemma NoLineWord(message: string)
    requires !Contains(Lower(message), "line")
    ensures LineNumber(message) == 0
  {
  }

  const UnknownError := "Unknown error"
  const DetailLimit := 500

  /** What replaces the preview after a render. */
  datatype View = Preview(svg: string) | ErrorView(display: string, lineNumber: nat)

  const ConvertFailure := "Failed to convert SVG to image."

  /** The message of a failed render: the error message, else the
      standard error, else "Unknown error". */
  function FailureMessage(result: R.RenderResult): (r: string)
    ensures Truthy(result.errorMessage) ==> r == result.errorMessage.value
    ensures !Truthy(result.errorMessage) && Truthy(result.stderr) ==> r == result.stderr.value
    ensures r != ""
  {
    if Truthy(result.errorMessage) then result.errorMessage.value
    else if Truthy(result.stderr) then result.stderr.value
    else UnknownError
  }

  function Prefix(s: string, n: nat): (r: string)
    ensures |r| == if |s| < n then |s| else n
    ensures StartsWith(s, r)
  {
    if |s| <= n then s else s[..n]
  }

  /** The preview after a render: the picture on success when it can be
      drawn; otherwise an error view whose text starts with the failure
      message and appends at most 500 characters of standard error when it
      differs from that message. */
  function RenderView(result: R.RenderResult, pictureOk: bool): (r: View)
    ensures result.success && Truthy(result.svgContent) ==>
      r == (if pictureOk then Preview(result.svgContent.value) else ErrorView(ConvertFailure, 0))
    ensures !(result.success && Truthy(result.svgContent)) ==>
      var msg := FailureMessage(result);
      var head := "Mermaid Error\n\n" + msg;
      r.ErrorView? && r.lineNumber == LineNumber(msg) && StartsWith(r.display, head) &&
      (Truthy(result.stderr) && result.stderr.value != msg ==>
         r.display == head + "\n\nDetails:\n" + Prefix(result.stderr.value, DetailLimit)) &&
      (!(Truthy(result.stderr) && result.stderr.value != msg) ==> r.display == head) &&
      |r.display| <= |head| + 11 + DetailLimit
  {
    if result.success && Truthy(result.svgContent) then
      if pictureOk then Preview(result.svgContent.value) else ErrorView(ConvertFailure, 0)
    else
      var msg := FailureMessage(result);
      var head := "Mermaid Error\n\n" + msg;
      var display := if Truthy(result.stderr) && result.stderr.value != msg
                     then head + "\n\nDetails:\n" + Prefix(result.stderr.value, DetailLimit)
                     else head;
      assert display[..|head|] == head;
      ErrorView(display, LineNumber(msg))
  }

  /** When the message itself is the standard error, nothing is repeated. */
  lemma StderrNotRepeated(stderr: string)
    requires stderr != ""
    ensures RenderView(R.RenderResult(false, None, None, Some(stderr)), true) ==
      ErrorView("Mermaid Error\n\n" + stderr, LineNumber(stderr))
  {
  }

  // ---------------------------------------------------------------------
  // Extracting the diagram from a reply

  const MermaidFence := "```mermaid"
  const Fence := "```"

  /** Nothing in `s[i..j]` is an occurrence when none starts in [i, j). */
  lemma SliceFree(s: string, pat: string, i: nat, j: nat)
    requires i <= j <= |s|
    requires forall k :: i <= k < j ==> !OccursAt(s, pat, k)
    ensures pat != "" ==> !Contains(s[i..j], pat)
  {
    var w := s[i..j];
    forall t | 0 <= t <= |w| - |pat| && pat != ""
      ensures !OccursAt(w, pat, t)
    {
      var a, b := s[i + t..i + t + |pat|], w[t..t + |pat|];
      forall k | 0 <= k < |pat|
        ensures a[k] == b[k]
      {
        assert w[t + k] == s[i + t + k];
      }
      assert a == b;
      assert !OccursAt(s, pat, i + t);
    }
  }

  /** `pat` first occurs in `s` at `i`. */
  predicate FirstAt(s: string, pat: string, i: int)
  {
    OccursAt(s, pat, i) && forall k :: 0 <= k < i ==> !OccursAt(s, pat, k)
  }

  /** `r` is what a block opening just before `from` yields: the stripped
      text from `from` up to the next fence when that is non-empty, and
      otherwise the whole reply (no closing fence, or one right at `from`). */
  predicate BlockYields(s: string, from: int, r: string)
  {
    (exists j | 0 <= from < j <= |s| - |Fence| ::
      OccursAt(s, Fence, j) && (forall k :: from <= k < j ==> !OccursAt(s, Fence, k))
      && r == Strip(s[from..j]))
    || (r == s && (OccursAt(s, Fence, from) || forall k :: from <= k <= |s| ==> !OccursAt(s, Fence, k)))
  }

  /** The diagram inside a reply: the stripped text after a
      case-insensitive "```mermaid" up to the next fence, or else between
      the first two fences. A reply without such a block, or with an empty
      one, is kept whole. */
  function ExtractFence(response: string): (r: string)
    ensures r == response || exists i, j | 0 <= i <= j <= |response| ::
      r == Strip(response[i..j]) && !Contains(response[i..j], Fence)
    ensures forall i :: FirstAt(Lower(response), MermaidFence, i) ==>
      BlockYields(response, i + |MermaidFence|, r)
    ensures !Contains(Lower(response), MermaidFence) ==>
      forall i :: FirstAt(response, Fence, i) ==> BlockYields(response, i + |Fence|, r)
    ensures !Contains(Lower(response), MermaidFence) && !Contains(response, Fence) ==> r == response
  {
    var lower := Lower(response);
    if Contains(lower, MermaidFence) then
      var first := Find(lower, MermaidFence);
      OnlyFirst(lower, MermaidFence, first);
      BlockAt(response, first + |MermaidFence|)
    else if Contains(response, Fence) then
      var first := Find(response, Fence);
      OnlyFirst(response, Fence, first);
      BlockAt(response, first + |Fence|)
    else response
  }

  /** What a block opening just before `start` yields. */
  function BlockAt(response: string, start: nat): (r: string)
    ensures BlockYields(response, start, r)
    ensures r == response || exists i, j | 0 <= i <= j <= |response| ::
      r == Strip(response[i..j]) && !Contains(response[i..j], Fence)
  {
    var end := FindFrom(response, Fence, start);
    if end > start then
      SliceFree(response, Fence, start, end);
      Strip(response[start..end])
    else response
  }

  /** There is only one first occurrence. */
  lemma OnlyFirst(s: string, pat: string, first: int)
    requires FirstAt(s, pat, first)
    ensures forall i :: FirstAt(s, pat, i) ==> i == first
  {
  }

  /** The first occurrence of `pat` at or after `from` is at `at` when it
      occurs there and the characters in between are not its first
      character. */
  lemma FindFromAt(s: string, pat: string, from: nat, at: nat)
    requires pat != "" && from <= at && OccursAt(s, pat, at)
    requires forall k :: from <= k < at ==> s[k] != pat[0]
    ensures FindFrom(s, pat, from) == at
  {
    var r := FindFrom(s, pat, from);
    if r != -1 {
      OccursHead(s, pat, r);
    }
  }

  lemma OccursHead(s: string, pat: string, k: int)
    requires pat != "" && OccursAt(s, pat, k)
    ensures s[k] == pat[0]
  {
    assert s[k..k + |pat|][0] == s[k];
  }

  /** A "```mermaid" block yields its stripped body. */
  lemma MermaidBlock(body: string)
    requires '`' !in body && body != ""
    ensures ExtractFence(MermaidFence + body + Fence) == Strip(body)
  {
    var s := MermaidFence + body + Fence;
    LowerFence(body);
    var lower := Lower(s);
    assert lower[..10] == MermaidFence;
    assert OccursAt(lower, MermaidFence, 0);
    assert Find(lower, MermaidFence) == 0;
    var at := 10 + |body|;
    assert s[at..at + 3] == Fence;
    assert forall k :: 10 <= k < at ==> s[k] == body[k - 10];
    FindFromAt(s, Fence, 10, at);
    assert s[10..at] == body;
  }

  lemma LowerFence(body: string)
    ensures Lower(MermaidFence + body + Fence) == MermaidFence + Lower(body) + Fence
  {
    LowerBetween(MermaidFence, body, Fence);
  }

  // ---------------------------------------------------------------------
  // Dirty and auto-render flags

  /** Whether auto-render is on, whether the text changed since the last
      render, and whether the render timer is running. */
  datatype Flags = Flags(autoRender: bool, dirty: bool, timerActive: bool)

  /** An edit marks the text dirty and starts the timer only with
      auto-render on. */
  function OnEdit(f: Flags): (r: Flags)
    ensures r.dirty && r.autoRender == f.autoRender
    ensures r.timerActive <==> f.timerActive || f.autoRender
  {
    f.(dirty := true, timerActive := f.timerActive || f.autoRender)
  }

  /** A render stops the timer and clears the dirty flag. */
  function OnRender(f: Flags): (r: Flags)
    ensures !r.dirty && !r.timerActive && r.autoRender == f.autoRender
  {
    f.(dirty := false, timerActive := false)
  }

  /** Switching auto-render on while dirty starts the timer. */
  function OnToggle(f: Flags, checked: bool): (r: Flags)
    ensures r.autoRender == checked && r.dirty == f.dirty
    ensures r.timerActive <==> f.timerActive || (checked && f.dirty)
  {
    Flags(checked, f.dirty, f.timerActive || (checked && f.dirty))
  }

  /** Saving writes the text and clears the dirty flag; a pending render
      timer is left running. */
  function OnSave(f: Flags): (r: Flags)
    ensures !r.dirty && r.autoRender == f.autoRender && r.timerActive == f.timerActive
  {
    f.(dirty := false)
  }

  const RenderHint := "Ctrl+Enter to render..."

  /** The status hint asks for a manual render exactly when auto-render is
      off and the text is dirty. */
  function StatusText(f: Flags): (r: string)
    ensures r != "" <==> !f.autoRender && f.dirty
  {
    if !f.autoRender && f.dirty then RenderHint else ""
  }

  datatype Event = Edit | RenderKey | TimerFires | Toggle(checked: bool) | Save

  function Step(f: Flags, e: Event): Flags
  {
    match e
    case Edit => OnEdit(f)
    case RenderKey => OnRender(f)
    case TimerFires => if f.timerActive then OnRender(f) else f
    case Toggle(checked) => OnToggle(f, checked)
    case Save => OnSave(f)
  }

  function Run(f: Flags, es: seq<Event>): Flags
    decreases |es|
  {
    if es == [] then f else Run(Step(f, es[0]), es[1..])
  }

  /** With auto-render on, every change has a render pending. */
  predicate Consistent(f: Flags)
  {
    f.autoRender && f.dirty ==> f.timerActive
  }

  /** A running timer has a change to render. */
  predicate TimerMeansDirty(f: Flags)
  {
    f.timerActive ==> f.dirty
  }

  lemma StepKeepsConsistent(f: Flags, e: Event)
    requires Consistent(f)
    ensures Consistent(Step(f, e))
    ensures TimerMeansDirty(f) && e != Save ==> TimerMeansDirty(Step(f, e))
  {
  }

  /** Every event keeps a render pending for each change under auto-render;
      only a save can leave the timer running over a clean text. */
  lemma {:induction false} RunKeepsConsistent(f: Flags, es: seq<Event>)
    requires Consistent(f)
    ensures Consistent(Run(f, es))
    ensures TimerMeansDirty(f) && (forall k :: 0 <= k < |es| ==> es[k] != Save) ==> TimerMeansDirty(Run(f, es))
    decreases |es|
  {
    if es != [] {
      StepKeepsConsistent(f, es[0]);
      RunKeepsConsistent(Step(f, es[0]), es[1..]);
      assert forall k :: 1 <= k < |es| ==> es[1..][k - 1] == es[k];
    }
  }

  /** Saving while a render is pending leaves the timer running on a clean
      text; it then fires and renders unchanged text. */
  lemma SaveLeavesTimer(f: Flags)
    requires f.timerActive
    ensures var g := Step(f, Save); g.timerActive && !g.dirty && !TimerMeansDirty(g)
    ensures Step(Step(f, Save), TimerFires) == OnRender(f)
  {
  }

  /** Under auto-render the hint never shows. */
  lemma AutoRenderHidesHint(f: Flags, es: seq<Event>)
    requires Consistent(f)
    ensures Run(f, es).autoRender ==> StatusText(Run(f, es)) == ""
  {
  }

  // ---------------------------------------------------------------------
  // Zoom

  const EditorZoomFloor := -5
  const PreviewZoomFloor := -10
  const BaseFontPoints := 11

  /** Zooming out stops at the floor; zooming in has no bound. */
  function ZoomOut(level: int, floor: int): (r: int)
    ensures level > floor ==> r == level - 1
    ensures level <= floor ==> r == level
    ensures r >= floor || r == level
  {
    if level > floor then level - 1 else level
  }

  function ZoomIn(level: int): (r: int)
    ensures r == level + 1
  {
    level + 1
  }

  /** Applies zoom steps: `true` zooms in, `false` zooms out. */
  function ApplyZooms(level: int, floor: int, steps: seq<bool>): int
    decreases |steps|
  {
    if steps == [] then level
    else ApplyZooms(if steps[0] then ZoomIn(level) else ZoomOut(level, floor), floor, steps[1..])
  }

  /** Starting at or above the floor, no sequence of zooms goes below it. */
  lemma {:induction false} ZoomStaysAboveFloor(level: int, floor: int, steps: seq<bool>)
    requires level >= floor
    ensures ApplyZooms(level, floor, steps) >= floor
    decreases |steps|
  {
    if steps != [] {
      ZoomStaysAboveFloor(if steps[0] then ZoomIn(level) else ZoomOut(level, floor), floor, steps[1..]);
    }
  }

  /** The editor font never drops below 6 points from a level at or above
      the editor floor. */
  lemma EditorFontReadable(level: int, steps: seq<bool>)
    requires level >= EditorZoomFloor
    ensures BaseFontPoints + ApplyZooms(level, EditorZoomFloor, steps) >= 6
  {
    ZoomStaysAboveFloor(level, EditorZoomFloor, steps);
  }

  // ---------------------------------------------------------------------
  // Shortcut insertion

  const LineBreakMarker := "!!BR!!"

  /** The text inserted for a shortcut at `pos`: a line break when the
      character before the cursor is not one, the snippet with its markers
      turned into line breaks, and a final line break. */
  function Inserted(text: string, pos: nat, code: string): (r: string)
    requires pos <= |text|
    ensures |r| >= 1 && r[|r| - 1] == '\n'
  {
    var body := ReplaceAll(code, LineBreakMarker, "\n");
    var lead := if pos > 0 && text != "" && text[pos - 1] != '\n' then "\n" else "";
    lead + body + "\n"
  }

  /** The text after inserting a shortcut, and the cursor after it. An
      empty snippet inserts nothing. */
  function InsertShortcut(text: string, pos: nat, code: string): (r: (string, nat))
    requires pos <= |text|
    ensures code == "" ==> r == (text, pos)
    ensures code != "" ==>
      var ins := Inserted(text, pos, code);
      r.0 == text[..pos] + ins + text[pos..] && r.1 == pos + |ins|
    ensures StartsWith(r.0, text[..pos]) && |r.0| >= |text|
  {
    if code == "" then (text, pos)
    else
      var ins := Inserted(text, pos, code);
      var t := text[..pos] + ins + text[pos..];
      assert t[..pos] == text[..pos];
      (t, pos + |ins|)
  }

  /** The inserted snippet starts on a line of its own and the cursor ends
      at the start of a fresh line. */
  lemma SnippetOnOwnLine(text: string, pos: nat, code: string)
    requires pos <= |text| && code != ""
    ensures var r := InsertShortcut(text, pos, code);
      0 < r.1 <= |r.0| && r.0[r.1 - 1] == '\n' &&
      (pos > 0 ==> r.0[pos - 1] == '\n' || r.0[pos] == '\n')
  {
    var ins := Inserted(text, pos, code);
    var r := InsertShortcut(text, pos, code);
    assert r.0[pos + |ins| - 1] == ins[|ins| - 1];
    if pos > 0 {
      assert r.0[pos - 1] == text[pos - 1];
      assert r.0[pos] == ins[0];
    }
  }

  /** A snippet without markers is inserted as written. */
  lemma SnippetVerbatim(text: string, pos: nat, code: string)
    requires pos <= |text| && code != "" && !Contains(code, LineBreakMarker)
    ensures var ins := Inserted(text, pos, code);
      ins == code + "\n" || ins == "\n" + code + "\n"
  {
  }

  // ---------------------------------------------------------------------
  // Prompt history

  predicate NoAdjacentRepeats(h: seq<string>)
  {
    forall i :: 0 < i < |h| ==> h[i] != h[i - 1]
  }

  /** A prompt is recorded unless it repeats the last one. */
  function AppendPrompt(history: seq<string>, prompt: string): (r: seq<string>)
    ensures r == history || r == history + [prompt]
    ensures |r| >= 1 && r[|r| - 1] == prompt
    ensures NoAdjacentRepeats(history) ==> NoAdjacentRepeats(r)
  {
    if history == [] || history[|history| - 1] != prompt then history + [prompt] else history
  }

  function History(prompts: seq<string>): seq<string>
    decreases |prompts|
  {
    if prompts == [] then [] else AppendPrompt(History(prompts[..|prompts| - 1]), prompts[|prompts| - 1])
  }

  /** The history never holds the same prompt twice in a row, and every
      prompt sent is in it. */
  lemma {:induction false} HistoryShape(prompts: seq<string>)
    ensures NoAdjacentRepeats(History(prompts))
    ensures forall p :: p in prompts ==> p in History(prompts)
    decreases |prompts|
  {
    if prompts != [] {
      var init := prompts[..|prompts| - 1];
      HistoryShape(init);
      assert prompts == init + [prompts[|prompts| - 1]];
    }
  }
}
