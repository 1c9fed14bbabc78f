// The full quick-capture entry point. Its page-path, entry and section
// functions repeat the lightweight entry point's; the lemmas here show where
// the two agree and where they part ways (stdin input and the handling of a
// configured remote vault).

module Capture {
  import opened Strings
  import Lite = CaptureLite

  const NoVaultMessage := "No vault configured for Quick Capture."

  /** The capture text: a non-blank `--text` argument wins; otherwise piped
      standard input, when it is not a terminal and holds something.
      `stdinData` is `None` when standard input is a terminal. */
  function ParseHotkeyText(textArg: Option<string>, stdinData: Option<string>): (r: Option<string>)
    ensures textArg.Some? && !IsBlank(textArg.value) ==> r == Some(Strip(textArg.value))
    ensures !(textArg.Some? && !IsBlank(textArg.value)) ==>
      r == (if stdinData.Some? && !IsBlank(stdinData.value) then Some(Strip(stdinData.value)) else None)
    ensures r.Some? ==> r.value != "" && Strip(r.value) == r.value
  {
    if textArg.Some? && !IsBlank(textArg.value) then
      StripSpec(textArg.value);
      StripIdempotent(textArg.value);
      Some(Strip(textArg.value))
    else if stdinData.Some? && !IsBlank(stdinData.value) then
      StripSpec(stdinData.value);
      StripIdempotent(stdinData.value);
      Some(Strip(stdinData.value))
    else None
  }

  /** Without piped input both entry points read the text argument alike. */
  lemma ParseTextAgrees(textArg: Option<string>)
    ensures ParseHotkeyText(textArg, None) == Lite.ParseHotkeyText(textArg)
  {
  }

  /** Same steps as the lightweight entry point. */
  function ColonToPagePath(colonPath: string): (r: Result<string>)
    ensures r.Ok? ==> StartsWith(r.value, "/")
  {
    var cleaned := Lite.CleanReference(colonPath);
    var parts := Lite.PageParts(colonPath);
    if cleaned == "" || parts == [] then Err(Lite.PageRequired)
    else Ok("/" + Join(parts, "/") + "/" + parts[|parts| - 1] + Lite.PageSuffix)
  }

  function ResolveCustomPageRef(pageRef: string): (r: Result<string>)
    ensures r.Ok? ==> StartsWith(r.value, "/")
  {
    var raw := Strip(pageRef);
    if raw == "" then Err(Lite.PageRequired)
    else if StartsWith(raw, "/") then Ok(raw)
    else if '/' in raw then Ok("/" + raw)
    else ColonToPagePath(raw)
  }

  /** The two colon-path conversions agree on every input, and so do the
      two page-reference resolvers. */
  lemma PageRefsAgree(s: string)
    ensures ColonToPagePath(s) == Lite.ColonToPagePath(s)
    ensures ResolveCustomPageRef(s) == Lite.ResolveCustomPageRef(s)
  {
    ColonAgrees(s);
    ColonAgrees(Strip(s));
  }

  lemma ColonAgrees(s: string)
    ensures ColonToPagePath(s) == Lite.ColonToPagePath(s)
  {
    if Lite.CleanReference(s) == "" {
      assert Split("", ':') == [""];
    }
  }

  /** An entry without attachments. */
  function BuildEntry(text: string, timestamp: string): (r: seq<string>)
    ensures r == [] <==> text == ""
  {
    var lines := Lite.BodyLines(text);
    if lines == [] then []
    else
      var first := "- *" + timestamp + "* - " + Strip(lines[0]);
      [first] + Lite.Continuation(lines) + ["", "---"]
  }

  /** The full entry point formats exactly what the lightweight one does
      with no attachments. */
  lemma EntryAgrees(text: string, timestamp: string)
    ensures BuildEntry(text, timestamp) == Lite.BuildEntry(text, timestamp, [])
  {
    assert Lite.ImageLines([]) == [];
    var lines := Lite.BodyLines(text);
    if lines != [] {
      var first := "- *" + timestamp + "* - " + Strip(lines[0]);
      assert [first] + [] + Lite.Continuation(lines) == [first] + Lite.Continuation(lines);
    }
  }

  // The section append is the same text in both tools; the full tool uses
  // `CaptureLite.AppendSection` as it stands.

  /** The vault to capture into: the argument, else the configured vault,
      else the last vault unless it is remote. Unlike the lightweight
      resolver, a remote argument or configured vault is taken as is. */
  function ResolveVaultPath(vaultArg: Option<string>, configured: Option<string>, last: Option<string>): (r: Result<string>)
    ensures Truthy(vaultArg) ==> r == Ok(vaultArg.value)
    ensures !Truthy(vaultArg) && Truthy(configured) ==> r == Ok(configured.value)
    ensures r.Err? <==> !Truthy(vaultArg) && !Truthy(configured) && (!Truthy(last) || StartsWith(last.value, Lite.RemotePrefix))
    ensures r.Err? ==> r.message == NoVaultMessage
  {
    if Truthy(vaultArg) then Ok(vaultArg.value)
    else if Truthy(configured) then Ok(configured.value)
    else if Truthy(last) && !StartsWith(last.value, Lite.RemotePrefix) then Ok(last.value)
    else Err(NoVaultMessage)
  }

  /** Where no remote reference is involved, both resolvers pick the same
      non-empty path. */
  lemma ResolversAgreeLocally(vaultArg: Option<string>, configured: Option<string>, last: Option<string>, p: string)
    requires !(Truthy(vaultArg) && StartsWith(vaultArg.value, Lite.RemotePrefix))
    requires !(Truthy(configured) && StartsWith(configured.value, Lite.RemotePrefix))
    ensures ResolveVaultPath(vaultArg, configured, last) == Ok(p) <==>
      Lite.ResolveLocalVaultPath(vaultArg, configured, last) == Some(p) && p != ""
  {
  }

  /** A configured remote vault: the lightweight resolver refuses it, the
      full one takes it. */
  lemma RemoteConfiguredDiffers(configured: string, last: Option<string>)
    requires StartsWith(configured, Lite.RemotePrefix)
    ensures Lite.ResolveLocalVaultPath(None, Some(configured), last) == None
    ensures ResolveVaultPath(None, Some(configured), last) == Ok(configured)
  {
  }

  function ResolvePageMode(pageArg: Option<string>, configuredMode: Option<string>, configuredPage: Option<string>): (r: (Lite.PageMode, Option<string>))
    ensures r.0 == Lite.Today ==> r.1 == None
  {
    if Truthy(pageArg) then (Lite.Custom, pageArg)
    else if configuredMode == Some("custom") then (Lite.Custom, configuredPage)
    else (Lite.Today, None)
  }

  lemma PageModeAgrees(pageArg: Option<string>, configuredMode: Option<string>, configuredPage: Option<string>)
    ensures ResolvePageMode(pageArg, configuredMode, configuredPage)
         == Lite.ResolvePageMode(pageArg, configuredMode, configuredPage)
  {
  }

  /** Where a capture went: handed to the running app, which resolves the
      page itself, or written by this process to a page. */
  datatype Delivery = ToApp | ToFile(target: Lite.Target)

  /** How a run ends: the exit code, and where the capture went if it got
      that far. */
  datatype RunOutcome = RunOutcome(exitCode: int, delivery: Option<Delivery>)

  /** What the environment answers during one run. */
  datatype Environment = Environment(
    stdinData: Option<string>,
    overlayViaApp: bool,          // the running app showed its own overlay
    overlayText: Option<string>,  // text typed into the local overlay
    configuredVault: Option<string>,
    lastVault: Option<string>,
    vaultExists: bool,
    configuredMode: Option<string>,
    configuredPage: Option<string>,
    appAccepted: bool,            // the running app took the capture
    writeSucceeds: bool)

  /** The text a run goes on with: the argument or piped input; failing
      both, and when the overlay is allowed and the running app did not show
      its own, what was typed into the local overlay. */
  function CapturedText(textArg: Option<string>, allowOverlay: bool, env: Environment): (r: Option<string>)
    ensures Truthy(ParseHotkeyText(textArg, env.stdinData)) ==> r == ParseHotkeyText(textArg, env.stdinData)
    ensures !Truthy(ParseHotkeyText(textArg, env.stdinData)) ==>
      r == (if allowOverlay && !env.overlayViaApp then env.overlayText else None)
  {
    var text := ParseHotkeyText(textArg, env.stdinData);
    if Truthy(text) then text
    else if allowOverlay && !env.overlayViaApp then env.overlayText
    else None
  }

  /** The decisions of one full capture run. */
  function RunQuickCapture(vaultArg: Option<string>, pageArg: Option<string>, textArg: Option<string>,
                           allowOverlay: bool, env: Environment): (r: RunOutcome)
    ensures r.exitCode == 0 || r.exitCode == 1
    // the capture goes somewhere exactly when there is text, an existing
    // vault, and a page mode that is usable: set, and resolvable unless the
    // app takes the capture
    ensures var m := ResolvePageMode(pageArg, env.configuredMode, env.configuredPage);
      r.delivery.Some? <==>
        Truthy(CapturedText(textArg, allowOverlay, env))
        && ResolveVaultPath(vaultArg, env.configuredVault, env.lastVault).Ok? && env.vaultExists
        && (m.0 == Lite.Today || Truthy(m.1))
        && (env.appAccepted || Lite.CaptureTarget(m.0, m.1).Ok?)
    // the app is tried first; a capture it takes succeeds
    ensures r.delivery == Some(ToApp) <==> r.delivery.Some? && env.appAccepted
    ensures r.delivery == Some(ToApp) ==> r.exitCode == 0
    // otherwise the page the mode names is written, and the run succeeds
    // exactly when the write does
    ensures var m := ResolvePageMode(pageArg, env.configuredMode, env.configuredPage);
      r.delivery.Some? && r.delivery.value.ToFile? ==>
        r.delivery.value.target == Lite.CaptureTarget(m.0, m.1).value && (r.exitCode == 0 <==> env.writeSucceeds)
    // a run that delivers nothing succeeds exactly when there was no text
    ensures r.delivery.None? ==> (r.exitCode == 0 <==> !Truthy(CapturedText(textArg, allowOverlay, env)))
  {
    var text := CapturedText(textArg, allowOverlay, env);
    if !Truthy(text) then RunOutcome(0, None)
    else
      var vault := ResolveVaultPath(vaultArg, env.configuredVault, env.lastVault);
      if vault.Err? then RunOutcome(1, None)
      else if !env.vaultExists then RunOutcome(1, None)
      else
        var mode := ResolvePageMode(pageArg, env.configuredMode, env.configuredPage);
        if mode.0 == Lite.Custom && !Truthy(mode.1) then RunOutcome(1, None)
        else if env.appAccepted then RunOutcome(0, Some(ToApp))
        else
          var target := Lite.CaptureTarget(mode.0, mode.1);
          if target.Err? then RunOutcome(1, None)
          else RunOutcome(if env.writeSucceeds then 0 else 1, Some(ToFile(target.value)))
  }

  /** Non-blank text, an existing vault and the journal mode: the capture
      reaches the running app when it takes it, and today's journal page
      otherwise. */
  lemma CaptureIsDelivered(vaultArg: Option<string>, textArg: Option<string>, allowOverlay: bool, env: Environment)
    requires textArg.Some? && !IsBlank(textArg.value)
    requires ResolveVaultPath(vaultArg, env.configuredVault, env.lastVault).Ok? && env.vaultExists
    requires env.configuredMode != Some("custom")
    ensures RunQuickCapture(vaultArg, None, textArg, allowOverlay, env)
         == if env.appAccepted then RunOutcome(0, Some(ToApp))
            else RunOutcome(if env.writeSucceeds then 0 else 1, Some(ToFile(Lite.Journal)))
  {
  }

  /** Without text, and with no overlay to ask, a run delivers nothing and
      exits cleanly, whatever the vault settings. */
  lemma BlankTextDeliversNothing(vaultArg: Option<string>, pageArg: Option<string>, textArg: Option<string>, env: Environment)
    requires textArg.None? || IsBlank(textArg.value)
    requires env.stdinData.None? || IsBlank(env.stdinData.value)
    ensures RunQuickCapture(vaultArg, pageArg, textArg, false, env) == RunOutcome(0, None)
  {
  }
}
