/** The Mermaid render coordinator and its content-addressed SVG cache
    (sp/app/mermaid_renderer.py).

    The coordinator is a small state machine: an optional path to the `mmdc`
    tool plus the cache directory, seen as a map from cache key to the text of
    the cached file. Everything the coordinator learns from the outside world
    arrives as an input value: what a `PATH` lookup found, whether a candidate
    tool path is a regular file, what the tool run did, and whether cache reads
    and writes succeed. Renders are sequential; the render lock and the timing
    of each call are not modelled. */
module MermaidRenderer {
  import opened Strings

  /** What every render attempt returns. The duration field is left out. */
  datatype RenderResult = RenderResult(
    success: bool,
    svgContent: Option<string>,
    errorMessage: Option<string>,
    stderr: Option<string>)

  /** What happened when the tool was run, as observed by the invoker.
      `Exited` carries the exit code, the text of the output file when the
      file exists, and the captured standard error. */
  datatype ToolOutcome =
    | TimedOut
    | BinaryMissing
    | Crashed(description: string)
    | Exited(exitCode: int, outputFile: Option<string>, stderrText: string)

  const SvgMarker: string := "<svg"
  const TimeoutMessage: string := "Mermaid render timed out (>15s)"
  const MissingBinaryMessage: string := "Mermaid CLI (mmdc) not found"
  const InstallHint: string := "Mermaid CLI (mmdc) not found. Install with npm install -g @mermaid-js/mermaid-cli"
  const InvalidOutputMessage: string := "Invalid SVG output from Mermaid"
  const ExitErrorPrefix: string := "Mermaid render error (exit "
  const CrashPrefix: string := "Render error: "
  const SampleDiagram: string := "flowchart TD\n  A[Start] --> B[End]\n"

  function Succeeded(svg: string): RenderResult
  {
    RenderResult(true, Some(svg), None, None)
  }

  function Failed(message: string, stderr: Option<string>): RenderResult
  {
    RenderResult(false, None, Some(message), stderr)
  }

  // ---------------------------------------------------------------------
  // Invoker: classifying one tool run

  /** The output file exists and looks like SVG. */
  predicate UsableOutput(o: ToolOutcome)
  {
    o.Exited? && o.outputFile.Some? && Contains(o.outputFile.value, SvgMarker)
  }

  function ExitErrorMessage(code: int): string
  {
    ExitErrorPrefix + IntToString(code) + ")"
  }

  /** Reads the exit code back out of a tool-error message. */
  function ExitCodeOf(message: string): Option<int>
  {
    if StartsWith(message, ExitErrorPrefix) && EndsWith(message, ")") && |message| > |ExitErrorPrefix|
    then ParseInt(message[|ExitErrorPrefix|..|message| - 1])
    else None
  }

  /** The tool-error message names the exit code: it can be read back. */
  lemma ExitMessageNamesCode(code: int)
    ensures ExitCodeOf(ExitErrorMessage(code)) == Some(code)
  {
    var m := ExitErrorMessage(code);
    assert m[..|ExitErrorPrefix|] == ExitErrorPrefix;
    assert m[|ExitErrorPrefix|..|m| - 1] == IntToString(code);
    IntRoundTrip(code);
  }

  /** `_invoke_mmdc`: turn one tool run into a result. A usable output file
      wins over the exit code; every fault becomes a failure value. */
  function Invoke(o: ToolOutcome): (r: RenderResult)
    ensures r.success <==> UsableOutput(o)
    ensures r.success ==> r == Succeeded(o.outputFile.value)
    ensures !r.success ==> r.svgContent.None? && r.errorMessage.Some?
    ensures !o.Exited? ==> r.stderr.None?
    ensures o.Exited? && !r.success ==> r.stderr == Some(o.stderrText)
    ensures o.Exited? && !r.success ==> (r.errorMessage == Some(InvalidOutputMessage) <==> o.exitCode == 0)
    ensures o.Exited? && !r.success && o.exitCode != 0 ==> ExitCodeOf(r.errorMessage.value) == Some(o.exitCode)
    ensures o.TimedOut? ==> r.errorMessage == Some(TimeoutMessage)
    ensures o.BinaryMissing? ==> r.errorMessage == Some(MissingBinaryMessage)
    ensures o.Crashed? ==> r.errorMessage == Some(CrashPrefix + o.description)
  {
    match o
    case TimedOut => Failed(TimeoutMessage, None)
    case BinaryMissing => Failed(MissingBinaryMessage, None)
    case Crashed(d) => Failed(CrashPrefix + d, None)
    case Exited(code, out, err) =>
      if out.Some? && Contains(out.value, SvgMarker) then Succeeded(out.value)
      else if code != 0 then
        ExitMessageNamesCode(code);
        assert ExitErrorMessage(code) != InvalidOutputMessage by {
          assert ExitErrorMessage(code)[0] == 'M';
          assert InvalidOutputMessage[0] == 'I';
        }
        Failed(ExitErrorMessage(code), Some(err))
      else Failed(InvalidOutputMessage, Some(err))
  }

  // ---------------------------------------------------------------------
  // Cache keys

  /** A SHA-256 digest, kept abstract: the digest of a string is identified
      by the string it was computed from, so equal digests mean equal inputs
      (collision resistance taken as injectivity). */
  datatype Digest = Sha256Of(preimage: string)

  /** `str(self._mmdc_path)`: the path text, or "None" when no tool is set. */
  function ToolIdentifier(tool: Option<string>): string
  {
    match tool
    case None => "None"
    case Some(p) => p
  }

  /** `_compute_cache_key`: the digest of `text + "|" + str(tool_path)`. */
  function CacheKey(text: string, tool: Option<string>): Digest
  {
    Sha256Of(text + "|" + ToolIdentifier(tool))
  }

  /** For a fixed tool path the key tells texts apart. */
  lemma KeyInjectiveInText(a: string, b: string, tool: Option<string>)
    ensures CacheKey(a, tool) == CacheKey(b, tool) <==> a == b
  {
    if CacheKey(a, tool) == CacheKey(b, tool) {
      var t := "|" + ToolIdentifier(tool);
      assert a + "|" + ToolIdentifier(tool) == a + t;
      assert b + "|" + ToolIdentifier(tool) == b + t;
      assert a + t == b + t;
      assert |a| == |b|;
      assert a == (a + t)[..|a|];
      assert b == (b + t)[..|b|];
    }
  }

  /** For a fixed text the key tells tool paths apart, except that a tool
      path spelled "None" collides with having no tool at all. */
  lemma KeyInjectiveInTool(text: string, t1: Option<string>, t2: Option<string>)
    requires t1 != Some("None") && t2 != Some("None")
    ensures CacheKey(text, t1) == CacheKey(text, t2) <==> t1 == t2
  {
    if CacheKey(text, t1) == CacheKey(text, t2) {
      var p := text + "|";
      assert p + ToolIdentifier(t1) == p + ToolIdentifier(t2);
      assert ToolIdentifier(t1) == (p + ToolIdentifier(t1))[|p|..];
      assert ToolIdentifier(t2) == (p + ToolIdentifier(t2))[|p|..];
    }
  }

  /** The collision the exception above is about. */
  lemma NoneToolCollides(text: string)
    ensures CacheKey(text, None) == CacheKey(text, Some("None"))
  {
  }

  /** The key is not injective in the pair: a "|" moved between the text and
      the tool path leaves the hashed string unchanged. */
  lemma KeyPairCollision()
    ensures CacheKey("A|B", Some("/bin/mmdc")) == CacheKey("A", Some("B|/bin/mmdc"))
  {
    assert "A|B" + "|" + "/bin/mmdc" == "A" + "|" + "B|/bin/mmdc";
  }

  // ---------------------------------------------------------------------
  // Coordinator state

  /** The coordinator: the tool path it holds and the cache directory's
      files, by key. */
  datatype Renderer = Renderer(toolPath: Option<string>, cache: map<Digest, string>)

  /** What `shutil.which("mmdc")` returned and whether that path exists. */
  datatype PathLookup = PathLookup(which: Option<string>, onDisk: bool)

  /** `discover_mmdc`: adopt what the lookup found, if it exists. */
  function Discover(r: Renderer, lookup: PathLookup): (res: (Renderer, Option<string>))
    ensures res.1.Some? <==> Truthy(lookup.which) && lookup.onDisk
    ensures res.1.Some? ==> res.0 == r.(toolPath := res.1)
    ensures res.1.None? ==> res.0 == r
  {
    if Truthy(lookup.which) && lookup.onDisk then (r.(toolPath := lookup.which), lookup.which)
    else (r, None)
  }

  /** `set_mmdc_path`: adopt the path only if it exists and is a regular
      file; otherwise report false and change nothing. */
  function SetToolPath(r: Renderer, path: string, pathExists: bool, isFile: bool): (res: (Renderer, bool))
    ensures res.1 <==> pathExists && isFile
    ensures res.1 ==> res.0.toolPath == Some(path) && res.0.cache == r.cache
    ensures !res.1 ==> res.0 == r
  {
    if pathExists && isFile then (r.(toolPath := Some(path)), true) else (r, false)
  }

  /** `is_configured`: discover lazily, only when no path is held. A failed
      discovery never clears a path. */
  function IsConfigured(r: Renderer, lookup: PathLookup): (res: (Renderer, bool))
    ensures res.1 <==> res.0.toolPath.Some?
    ensures r.toolPath.Some? ==> res.0 == r
    ensures res.0.cache == r.cache
    ensures r.toolPath.None? && res.1 ==> res.0.toolPath == lookup.which
    ensures r.toolPath.None? ==> (res.1 <==> Truthy(lookup.which) && lookup.onDisk)
  {
    var r' := if r.toolPath.None? then Discover(r, lookup).0 else r;
    (r', r'.toolPath.Some?)
  }

  // ---------------------------------------------------------------------
  // Rendering

  /** Everything the outside world decides during one render. */
  datatype Host = Host(lookup: PathLookup, outcome: ToolOutcome, cacheReadable: bool, cacheWritable: bool)

  /** `_read_from_cache`: a missing or unreadable file is `None`. */
  function ReadCache(cache: map<Digest, string>, key: Digest, readable: bool): (r: Option<string>)
    ensures r.Some? <==> readable && key in cache
    ensures r.Some? ==> r.value == cache[key]
  {
    if readable && key in cache then Some(cache[key]) else None
  }

  /** `_write_to_cache`: a failed write leaves the directory as it was. */
  function WriteCache(cache: map<Digest, string>, key: Digest, svg: string, writable: bool): (c: map<Digest, string>)
    ensures writable ==> c == cache[key := svg]
    ensures !writable ==> c == cache
  {
    if writable then cache[key := svg] else cache
  }

  /** The non-empty cached SVG for `text` under the renderer's current tool
      path, if a read succeeds. */
  predicate CacheHit(r: Renderer, text: string, readable: bool)
  {
    var hit := ReadCache(r.cache, CacheKey(text, r.toolPath), readable);
    hit.Some? && hit.value != ""
  }

  /** One render: the new coordinator state, the result, and whether the
      tool was run. */
  datatype Step = Step(renderer: Renderer, result: RenderResult, invoked: bool)

  /** `render_svg`. The cache key is computed on entry, before the lazy
      discovery inside `is_configured`, so a render that discovers the tool
      files its SVG under the key for "no tool". */
  function Render(r: Renderer, text: string, h: Host): (s: Step)
    // a non-empty cached SVG is returned as is; nothing else happens
    ensures CacheHit(r, text, h.cacheReadable) ==>
      s == Step(r, Succeeded(r.cache[CacheKey(text, r.toolPath)]), false)
    // on a miss, the tool runs exactly when one is configured after discovery
    ensures !CacheHit(r, text, h.cacheReadable) ==>
      (s.invoked <==> s.renderer.toolPath.Some?) && s.renderer.toolPath == IsConfigured(r, h.lookup).0.toolPath
    ensures s.invoked ==> s.result == Invoke(h.outcome)
    ensures !s.invoked && !CacheHit(r, text, h.cacheReadable) ==>
      s.result == Failed(InstallHint, None) && s.renderer.cache == r.cache
    // the held tool path is never cleared or replaced by a render
    ensures r.toolPath.Some? ==> s.renderer.toolPath == r.toolPath
    // the cache changes only by storing a successful SVG under the entry key
    ensures s.renderer.cache == r.cache ||
      (s.invoked && s.result.success && h.cacheWritable &&
       s.renderer.cache == r.cache[CacheKey(text, r.toolPath) := s.result.svgContent.value])
    ensures !s.result.success ==> s.renderer.cache == r.cache
  {
    var key := CacheKey(text, r.toolPath);
    var cached := ReadCache(r.cache, key, h.cacheReadable);
    if cached.Some? && cached.value != "" then
      Step(r, Succeeded(cached.value), false)
    else
      var (r1, configured) := IsConfigured(r, h.lookup);
      if !configured then
        Step(r1, Failed(InstallHint, None), false)
      else
        var result := Invoke(h.outcome);
        var cache' :=
          if result.success && result.svgContent.Some? && result.svgContent.value != ""
          then WriteCache(r1.cache, key, result.svgContent.value, h.cacheWritable)
          else r1.cache;
        Step(r1.(cache := cache'), result, true)
  }

  /** `test_setup`: render the built-in sample diagram. A cached sample is
      returned as it is; otherwise, without a tool, the result is the
      install hint; with one, the tool runs on the sample and usable output
      is stored under the sample's key. */
  function SelfTest(r: Renderer, h: Host): (s: Step)
    ensures var key := CacheKey(SampleDiagram, r.toolPath);
      CacheHit(r, SampleDiagram, h.cacheReadable) ==> s == Step(r, Succeeded(r.cache[key]), false)
    ensures var key := CacheKey(SampleDiagram, r.toolPath);
      var found := r.toolPath.Some? || (Truthy(h.lookup.which) && h.lookup.onDisk);
      !CacheHit(r, SampleDiagram, h.cacheReadable) ==>
        (!found ==> s == Step(r, Failed(InstallHint, None), false)) &&
        (found ==>
          s.invoked && s.result == Invoke(h.outcome) &&
          s.renderer.toolPath == (if r.toolPath.Some? then r.toolPath else h.lookup.which) &&
          s.renderer.cache == (if UsableOutput(h.outcome) && h.cacheWritable
                               then r.cache[key := h.outcome.outputFile.value] else r.cache))
  {
    if UsableOutput(h.outcome) then
      UsableOutputNonEmpty(h.outcome);
      Render(r, SampleDiagram, h)
    else Render(r, SampleDiagram, h)
  }

  /** With a tool held, a self-test that succeeds and is stored makes the
      next self-test a cache hit: the tool does not run again and the
      same SVG comes back. */
  lemma SelfTestThenCached(r: Renderer, h1: Host, h2: Host)
    requires r.toolPath.Some?
    requires h1.cacheWritable && h2.cacheReadable
    requires SelfTest(r, h1).result.success
    ensures var s1 := SelfTest(r, h1);
            var s2 := SelfTest(s1.renderer, h2);
            !s2.invoked && s2.result == s1.result && s2.renderer == s1.renderer
  {
    SecondRenderHits(r, SampleDiagram, h1, h2);
  }

  // ---------------------------------------------------------------------
  // Properties across renders

  /** A usable SVG is never empty, so a successful invocation is always
      written to the cache (when the write succeeds). */
  lemma UsableOutputNonEmpty(o: ToolOutcome)
    requires UsableOutput(o)
    ensures o.outputFile.value != ""
  {
    var i :| 0 <= i <= |o.outputFile.value| - |SvgMarker| && OccursAt(o.outputFile.value, SvgMarker, i);
  }

  /** With a tool path already held and a writable cache, a successful
      render is followed by a cache hit that returns the same SVG without
      running the tool. */
  lemma SecondRenderHits(r: Renderer, text: string, h1: Host, h2: Host)
    requires r.toolPath.Some?
    requires h1.cacheWritable && h2.cacheReadable
    requires Render(r, text, h1).result.success
    ensures var s1 := Render(r, text, h1);
            var s2 := Render(s1.renderer, text, h2);
            !s2.invoked && s2.result == s1.result && s2.renderer == s1.renderer
  {
    var s1 := Render(r, text, h1);
    if s1.invoked {
      UsableOutputNonEmpty(h1.outcome);
      assert s1.renderer.toolPath == r.toolPath;
      assert s1.renderer.cache == r.cache[CacheKey(text, r.toolPath) := s1.result.svgContent.value];
    }
  }

  /** The quirk of computing the key before discovery: starting with no tool
      path, a render that discovers the tool files its SVG under the "None"
      key, so the next render of the same text misses and runs the tool
      again. */
  lemma FirstRenderFilesUnderNone(r: Renderer, text: string, h1: Host, h2: Host)
    requires r.toolPath.None?
    requires Truthy(h1.lookup.which) && h1.lookup.onDisk && h1.lookup.which != Some("None")
    requires UsableOutput(h1.outcome) && h1.cacheWritable
    requires !CacheHit(r, text, h1.cacheReadable)
    requires CacheKey(text, h1.lookup.which) !in r.cache
    requires h2.cacheReadable
    ensures var s1 := Render(r, text, h1);
            s1.invoked && s1.result.success
            && s1.renderer.toolPath == h1.lookup.which
            && CacheKey(text, None) in s1.renderer.cache
            && Render(s1.renderer, text, h2).invoked
  {
    var s1 := Render(r, text, h1);
    UsableOutputNonEmpty(h1.outcome);
    KeyInjectiveInTool(text, None, h1.lookup.which);
    assert s1.renderer.cache == r.cache[CacheKey(text, None) := h1.outcome.outputFile.value];
    assert !CacheHit(s1.renderer, text, h2.cacheReadable);
  }

  /** Renders of one text against a sequence of hosts, one after the other:
      the final state, the results, and how many times the tool ran. */
  function RenderAll(r: Renderer, text: string, hosts: seq<Host>): (Renderer, seq<RenderResult>, nat)
    decreases |hosts|
  {
    if hosts == [] then (r, [], 0)
    else
      var s := Render(r, text, hosts[0]);
      var (r', results, n) := RenderAll(s.renderer, text, hosts[1..]);
      (r', [s.result] + results, n + (if s.invoked then 1 else 0))
  }

  /** Once the SVG for `text` is cached, every later render is a hit: the
      tool never runs, the state does not change, and every result carries
      the cached SVG. */
  lemma {:induction false} CachedStaysCached(r: Renderer, text: string, hosts: seq<Host>)
    requires CacheHit(r, text, true)
    requires forall i :: 0 <= i < |hosts| ==> hosts[i].cacheReadable
    ensures var (r', results, n) := RenderAll(r, text, hosts);
            n == 0 && r' == r && |results| == |hosts|
            && forall i :: 0 <= i < |results| ==> results[i] == Succeeded(r.cache[CacheKey(text, r.toolPath)])
    decreases |hosts|
  {
    if hosts != [] {
      assert hosts[0].cacheReadable;
      CachedStaysCached(r, text, hosts[1..]);
    }
  }

  /** Idempotence: with a tool path held and a first render that succeeds
      and is stored, any number of renders of the same text run the tool at
      most once and all return the same SVG. */
  lemma {:induction false} RenderIdempotent(r: Renderer, text: string, hosts: seq<Host>)
    requires r.toolPath.Some? && |hosts| >= 1
    requires forall i :: 0 <= i < |hosts| ==> hosts[i].cacheReadable
    requires hosts[0].cacheWritable
    requires Render(r, text, hosts[0]).result.success
    ensures var (r', results, n) := RenderAll(r, text, hosts);
            n <= 1 && |results| == |hosts|
            && forall i :: 0 <= i < |results| ==> results[i] == results[0]
  {
    var s1 := Render(r, text, hosts[0]);
    assert hosts[0].cacheReadable;
    if s1.invoked {
      UsableOutputNonEmpty(hosts[0].outcome);
    }
    assert CacheHit(s1.renderer, text, true);
    assert s1.result == Succeeded(s1.renderer.cache[CacheKey(text, s1.renderer.toolPath)]);
    forall i | 0 <= i < |hosts[1..]| ensures hosts[1..][i].cacheReadable {
      assert hosts[1..][i] == hosts[i + 1];
    }
    CachedStaysCached(s1.renderer, text, hosts[1..]);
  }

  /** Every cache entry that holds anything holds SVG. */
  predicate CacheWellFormed(cache: map<Digest, string>)
  {
    forall k :: k in cache ==> cache[k] == "" || Contains(cache[k], SvgMarker)
  }

  /** Rendering only ever stores SVG, so it keeps the cache well formed. */
  lemma RenderKeepsCacheWellFormed(r: Renderer, text: string, h: Host)
    requires CacheWellFormed(r.cache)
    ensures CacheWellFormed(Render(r, text, h).renderer.cache)
  {
    var s := Render(r, text, h);
    if s.renderer.cache != r.cache {
      assert UsableOutput(h.outcome);
    }
  }
}
