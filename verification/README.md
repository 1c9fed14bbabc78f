# StillPoint core, modelled in Dafny

StillPoint is a desktop notebook. Its pages are Markdown files kept in a
*vault*, which is either a local directory or a remote server. This project
models the logic behind the following features:

- **The Mermaid renderer** (`MermaidRenderer`, `renderer.dfy`):
  - finding or setting the `mmdc` command-line tool;
  - turning one run of the tool into a `RenderResult`;
  - the render cache, keyed by the diagram text and the tool's path.
- **Quick capture.** A global hotkey drops a timestamped entry into today's
  journal page or into a chosen page.
  - `CaptureLite` (`quickcapture_lite.dfy`) models the stand-alone tool,
    which writes the vault file itself.
  - `Capture` (`quickcapture.dfy`) models the full tool, which delivers the
    entry to the running application. It reuses `CaptureLite` wherever the
    two programs share code. Each difference between them is stated as a
    lemma: agreement where they agree, a counterexample where they part.
  - Appending to a page's `## Inbox / Captures` section is defined once, as
    `CaptureLite.AppendSection`. The two source functions are textually
    identical, so the two tools agree on it by construction.
- **The jump dialog** (`JumpDialog`, `jump_dialog.dfy`):
  - filtering pages under the current folder;
  - the "create new page" row;
  - selection movement;
  - the dialog title;
  - the HTML escaping of highlighted results.
- **The open-vault dialog** (`OpenVault`, `open_vault_dialog.dfy`):
  - the local and remote lists;
  - adding and removing vaults;
  - keeping the default-vault combo consistent;
  - which buttons are enabled.
- **The stand-alone page editor window** (`PageEditor`, `page_editor.dfy`):
  - the title and saving, including read-only handling;
  - font size limits;
  - the heading popup, cycled with a key;
  - the filterable heading picker and its on-screen position.
- **The Mermaid editor window** (`MermaidEditor`, `mermaid_editor.dfy`):
  - the error SVG, with its escaping;
  - reading a line number out of a renderer error;
  - the auto-render state machine;
  - zoom floors;
  - inserting a shortcut snippet;
  - extracting a diagram from an AI answer;
  - the prompt history.
- **The per-vault preferences dialog** (`VaultPreferences`,
  `vault_preferences.dfy`): six tri-state overrides.
- **The folder-template dialog** (`FolderTemplates`, `folder_templates.dfy`):
  - scanning the built-in and user template directories;
  - the category tree;
  - the `.txt` preview;
  - accepting a folder name.

`Strings` (`strings.dfy`) holds the Python string operations the sources
lean on: `strip`, `split`, `join`, `lower`, `find`, `replace`, `int()` and
`str()` of integers. Each comes with the lemmas that tie it to its meaning.

The model follows these conventions for what it cannot represent directly:

- Everything the program learns from the outside world is a parameter of
  the function that needs it:
  - what a subprocess did;
  - whether a file exists or could be written;
  - a directory listing;
  - the clock's timestamp.
- Widgets become immutable records, and signal handlers become functions
  from one record to the next.
- Python's `None`, `""` and truthiness are modelled explicitly with
  `Option` and `Truthy`.

## Model

| member | source | states |
|---|---|---|
| MermaidRenderer.Invoke | sp/app/mermaid_renderer.py:108-159 | A run succeeds exactly when the tool left an output file containing `<svg`, whatever its exit code. On failure the result carries an error message and no SVG, and stderr is kept only for exited runs. A non-zero exit names its code. Timeouts, a missing binary and crashes each map to their fixed message. |
| MermaidRenderer.ExitMessageNamesCode | sp/app/mermaid_renderer.py:133-143 | The exit-code message `ExitErrorMessage` builds can be read back to the exact exit code. |
| MermaidRenderer.KeyInjectiveInText | sp/app/mermaid_renderer.py:161-163 | `CacheKey` hashes the text, a `\|` and `ToolIdentifier` of the tool (its path, or `None`). With the tool path fixed, two diagram texts share a cache key only if they are equal. |
| MermaidRenderer.KeyInjectiveInTool | sp/app/mermaid_renderer.py:161-163 | With the text fixed, and neither tool path being the literal string `None`, two tool paths share a cache key only if they are equal. |
| MermaidRenderer.NoneToolCollides | sp/app/mermaid_renderer.py:161-163 | An unconfigured tool and a tool whose path is the string `None` produce the same key. |
| MermaidRenderer.KeyPairCollision | sp/app/mermaid_renderer.py:161-163 | Concatenating with a `\|` separator is not injective on (text, tool) pairs: a concrete colliding pair. |
| MermaidRenderer.Discover | sp/app/mermaid_renderer.py:46-54 | A tool is found exactly when `which` returns a truthy path that exists on disk. Discovery then records it; otherwise the renderer is unchanged. |
| MermaidRenderer.SetToolPath | sp/app/mermaid_renderer.py:56-62 | The path is accepted exactly when it exists and is a file. Acceptance sets the tool and keeps the cache; rejection changes nothing. |
| MermaidRenderer.IsConfigured | sp/app/mermaid_renderer.py:68-72 | The renderer is configured when a tool is set or discovery finds one. An existing tool is never replaced, and the cache is untouched. |
| MermaidRenderer.ReadCache | sp/app/mermaid_renderer.py:165-172 | A read hits exactly when the cache is readable and holds the key, and then returns the stored SVG. |
| MermaidRenderer.WriteCache | sp/app/mermaid_renderer.py:174-179 | A writable cache gains the key with the SVG; an unwritable one is left as it was. |
| MermaidRenderer.Render | sp/app/mermaid_renderer.py:74-101 | A cache hit answers without invoking the tool. On a miss, the tool runs exactly when one is configured after discovery. Without one, the render fails with the install hint. Otherwise the result is that of the invocation. Only a successful render may change the cache, and a configured tool path is kept. |
| MermaidRenderer.SelfTest | sp/app/mermaid_renderer.py:103-106 | The setup test renders the sample diagram. A cached sample is returned without running the tool. On a miss with no tool held or found, the result is the install hint and nothing changes. With a tool, the tool runs and its result is returned; usable output is stored under the sample's key when the cache is writable, and the cache is otherwise unchanged. |
| MermaidRenderer.SelfTestThenCached | sp/app/mermaid_renderer.py:74-106 | With a tool path already held, a successful self-test with a writable cache makes the next self-test a hit that runs nothing and returns the same SVG. |
| MermaidRenderer.SecondRenderHits | sp/app/mermaid_renderer.py:74-101 | With a tool path already held, a successful render with a writable cache makes rendering the same text again a cache hit that invokes nothing and returns the same SVG. |
| MermaidRenderer.FirstRenderFilesUnderNone | sp/app/mermaid_renderer.py:78 | The cache key is computed before discovery. A render that discovers the tool therefore files its SVG under the key for an absent tool, and the next render, now keyed by the discovered path, misses. |
| MermaidRenderer.CachedStaysCached | sp/app/mermaid_renderer.py:74-101 | Once a text is cached, any number of further renders invoke nothing, leave the renderer unchanged, and all return the cached SVG. |
| MermaidRenderer.RenderIdempotent | sp/app/mermaid_renderer.py:74-101 | With a tool held and a first render that succeeds into a writable cache, any number of renders of the same text run the tool at most once and all return the same result. |
| MermaidRenderer.RenderKeepsCacheWellFormed | sp/app/mermaid_renderer.py:94-101 | If every non-empty cache entry is SVG before a render, the same holds after it. |
| CaptureLite.ParseHotkeyText | sp/app/quickcapture_lite.py:14-17 | Text is captured exactly when the argument is present and not blank, and it is the argument stripped, never empty. |
| CaptureLite.ColonToPagePath | sp/app/quickcapture_lite.py:57-72 | A colon path fails exactly when it has no non-blank segment. Otherwise the result is `/A/B/.../Last/Last.md`, built from the cleaned segments with underscores turned into spaces. |
| CaptureLite.ColonPathErrors | sp/app/quickcapture_lite.py:57-72 | Blank input, all colons, or an input that is only an anchor is rejected. |
| CaptureLite.AnchorIgnored | sp/app/quickcapture_lite.py:59-60 | For any text without `#`, appending `#` and any anchor does not change the page it names. |
| CaptureLite.LeadingColonIgnored | sp/app/quickcapture_lite.py:57-64 | Any run of colons and whitespace in front of a reference does not change the page it names. |
| CaptureLite.SameTarget | sp/app/quickcapture_lite.py:57-72 | `A:B`, `A:B#h` and `:A::B` all name `/A/B/B.md`. |
| CaptureLite.PartsBeforeAnchor | sp/app/quickcapture_lite.py:57-72 | The folders a colon path names are the stripped, non-blank `:`-segments of the text before its first `#`, with underscores read as spaces. Surrounding whitespace and leading colons only ever add blank segments. |
| CaptureLite.FillerIgnored | sp/app/quickcapture_lite.py:57-64 | Any run of colons and whitespace in front of a text leaves its colon segments unchanged. |
| CaptureLite.StripIgnored | sp/app/quickcapture_lite.py:57 | Stripping a text leaves its colon segments unchanged. |
| CaptureLite.ResolveCustomPageRef | sp/app/quickcapture_lite.py:75-83 | A reference fails exactly when it is blank, or slash-free and not a valid colon path. An absolute path is kept, a relative one gains a leading `/`, a slash-free one is read as a colon path, and every success is absolute. |
| CaptureLite.FormatImageLink | sp/app/quickcapture_lite.py:86-89 | The line is exactly the link to `./name`, followed by the width cap exactly when the image is wider than 600 pixels. |
| CaptureLite.BuildEntry | sp/app/quickcapture_lite.py:92-105 | An entry is empty exactly when the text is. Otherwise it has a timestamped first line, one image link per named image, indented continuation lines, and a closing rule. |
| CaptureLite.AppendSection | sp/app/quickcapture_lite.py:108-127 | No entries leave the page unchanged. The result ends in a newline. Entries go under the first line that strips to `## Inbox / Captures` (`HeaderIndex`), before the next heading, or into a new section at the end. Under an existing header, the joined lines get a final line break only when they lack one. |
| CaptureLite.LineSurvives | sp/app/quickcapture_lite.py:108-127 | A complete line placed in a text is found again when the text is split into lines. |
| CaptureLite.AppendCreatesSection | sp/app/quickcapture_lite.py:108-127 | After a non-empty append, the page has a `## Inbox / Captures` header. |
| CaptureLite.ResolveLocalVaultPath | sp/app/quickcapture_lite.py:168-181 | The vault is the argument, then the configured vault, then the last one used. A remote (`remote::`) vault is refused at every step. |
| CaptureLite.ResolvePageMode | sp/app/quickcapture_lite.py:130-136 | An explicit page forces custom mode. Otherwise the configured mode decides, and the today mode carries no page. |
| CaptureLite.CaptureTarget | sp/app/quickcapture_lite.py:138-165 | Today mode writes to the journal. Custom mode writes to the resolved page reference, and fails exactly when the reference is missing or does not resolve. |
| CaptureLite.RunLite | sp/app/quickcapture_lite.py:266-307 | The run as intended, with the overlay supplying the text (see Findings). The exit code is 0 or 1. A write is attempted exactly when a local vault resolves, there is text, and the page target resolves, and it goes to that target. An attempted write exits 0 exactly when it succeeds. Without a write, the run exits 0 exactly when the vault resolved and there was no text. |
| CaptureLite.CaptureLandsInJournal | sp/app/quickcapture_lite.py:266-307 | With a local vault, non-blank text and no custom page, the entry is written to the journal, and the exit code reflects the write. |
| CaptureLite.BlankTextWritesNothing | sp/app/quickcapture_lite.py:285-291 | With a local vault, blank or missing text and a dismissed overlay, nothing is written and the run exits 0 (intended behaviour; see Findings). |
| CaptureLite.OverlayTextLandsInJournal | sp/app/quickcapture_lite.py:280-307 | With a local vault, no text argument and no custom page, the text typed into the overlay is written to the journal, and the exit code reflects the write (intended behaviour; see Findings). |
| CaptureLite.RunLiteAsWritten | sp/app/quickcapture_lite.py:38-43 | As written, a run without a text argument exits 1 and writes nothing, because the overlay is built with keyword arguments its constructor does not take. A clean exit therefore always means a successful write. |
| CaptureLite.AsWrittenAgreesWithTextArg | sp/app/quickcapture_lite.py:277-281 | With a non-blank text argument the overlay is never built, and the run as written equals the intended run, whatever the overlay would have returned. |
| CaptureLite.OverlayCallFails | sp/app/quickcapture_lite.py:38-43 | For `--vault /v` with no `--text`, the run as written exits 1 with nothing written. The intended run writes the overlay's text to the journal, or exits 0 when the overlay is dismissed. |
| CaptureLite.SanitizeName | sp/app/quickcapture_lite.py:212-218 | A sanitized attachment name uses only allowed characters, has no whitespace and is not `.` or `..`. A name that is already safe is returned unchanged. |
| CaptureLite.SanitizeIdempotent | sp/app/quickcapture_lite.py:212-218 | Sanitizing twice gives the same name as sanitizing once. |
| CaptureLite.UniqueName | sp/app/quickcapture_lite.py:220-233 | The chosen name is not yet taken and is the sanitized name when that is free. Otherwise it is the first free `stem_N.suffix`. |
| CaptureLite.NextPasteName | sp/app/quickcapture_lite.py:235-242 | The chosen paste name (`PasteName`) is not yet taken, and it is the first free `paste_image_NNN.png`. |
| CaptureLite.FirstFree | sp/app/quickcapture_lite.py:226-242 | The counting loop returns the first counter from 1 whose name is not taken. |
| CaptureLite.NumberedNameInjective | sp/app/quickcapture_lite.py:220-233 | Different counters give different numbered names. |
| CaptureLite.PasteNameInjective | sp/app/quickcapture_lite.py:235-242 | Different counters give different paste names. |
| Capture.ParseHotkeyText | sp/app/quickcapture.py:50-57 | The argument wins when it is not blank; otherwise stdin is used. Captured text is stripped and non-empty. |
| Capture.ParseTextAgrees | sp/app/quickcapture.py:50-57 | Without stdin, the full tool parses text exactly as the lite tool does. |
| Capture.PageRefsAgree | sp/app/quickcapture.py:78-104 | The full tool's colon paths and custom page references agree with the lite tool's on every input. |
| Capture.EntryAgrees | sp/app/quickcapture.py:107-113 | The full tool's entry is the lite tool's entry without images. |
| Capture.ResolveVaultPath | sp/app/quickcapture.py:196-205 | The argument wins, then the configured vault, then the last one if it is local. The result is an error exactly when none of these applies. |
| Capture.ResolversAgreeLocally | sp/app/quickcapture.py:196-205 | For local-only inputs, the two tools resolve the same vault. |
| Capture.RemoteConfiguredDiffers | sp/app/quickcapture.py:196-205 | A configured `remote::` vault is accepted by the full tool and refused by the lite one. |
| Capture.PageModeAgrees | sp/app/quickcapture.py:208-214 | The two tools choose the same page mode and page. |
| Capture.RunQuickCapture | sp/app/quickcapture.py:217-267 | The exit code is 0 or 1. The entry is delivered exactly when there is text, the vault resolves and exists, the page mode has its page, and either the application accepts it or the page target resolves. It goes to the application exactly when the application accepts it, and that exits 0. A file write goes to the resolved target and exits 0 exactly when it succeeds. Without delivery, the run exits 0 exactly when there was no text. |
| Capture.CaptureIsDelivered | sp/app/quickcapture.py:217-267 | With non-blank text, an existing vault and no custom page, the entry goes to the application when it accepts it, and otherwise to the journal file. |
| Capture.BlankTextDeliversNothing | sp/app/quickcapture.py:230-240 | With blank text and blank stdin, and with the overlay not allowed, nothing is delivered and the run exits 0. |
| JumpDialog.VaultLevel | sp/app/ui/jump_dialog.py:352-362 | The level is the parent folder of the current page, or the vault root when there is none. |
| JumpDialog.NewPagePath | sp/app/ui/jump_dialog.py:364-379 | A new page is `/folder/Name/Name.md` under the current page's parent folder, or `/Name/Name.md` at the root. |
| JumpDialog.NewPageAtVaultLevel | sp/app/ui/jump_dialog.py:352-379 | The created page is `/Name/Name.md` under the parent folder of the current page, or at the root when there is none. |
| JumpDialog.SearchTerm | sp/app/ui/jump_dialog.py:218-241 | The search term is the stripped text with its leading run of colons removed: a suffix of the stripped text, preceded only by colons, and never starting with `:`. |
| JumpDialog.FilterPages | sp/app/ui/jump_dialog.py:235-241 | The pages kept are exactly those under the filter folder. |
| JumpDialog.FilterPagesAppend | sp/app/ui/jump_dialog.py:235-241 | Filtering keeps search order: the hits of a concatenation are the hits of each part, one after the other. |
| JumpDialog.FilterPagesOne | sp/app/ui/jump_dialog.py:235-241 | A single hit is kept exactly when it lies under the filter folder. |
| JumpDialog.Refresh | sp/app/ui/jump_dialog.py:218-257 | The selection is valid. The first row is selected whenever there are rows. Matching rows carry listed, in-filter pages. A create row appears exactly when the dialog is in insert-link mode, nothing matched and the search is non-blank. It is then the only row, and its path is the new-page path. Without a create row, the rows are exactly the filtered hits, in order. |
| JumpDialog.SelectedPath | sp/app/ui/jump_dialog.py:166-175 | The selected row's path. With no row selected: the new-page path for the typed name when the dialog is in insert-link or create-new mode, nothing matched and the text is non-blank; otherwise nothing. |
| JumpDialog.CreateTitleReturnsNewPage | sp/app/ui/jump_dialog.py:166-175 | After a refresh in insert-link mode, a "Create New Page" title means the dialog returns a new-page path for the typed name. The plain title means it returns the first listed hit, or nothing. |
| JumpDialog.MoveDown | sp/app/ui/jump_dialog.py:193-206 | Moving down keeps the selection valid and stops at the last row. |
| JumpDialog.MoveUp | sp/app/ui/jump_dialog.py:193-206 | Moving up keeps the selection valid and stops at the first row. |
| JumpDialog.DownUp | sp/app/ui/jump_dialog.py:193-206 | Down then up returns to the same selection whenever down moved. |
| JumpDialog.Title | sp/app/ui/jump_dialog.py:343-350 | The jump and create modes read "Jump to Page". Insert-link mode says it will create a page exactly when nothing matched and the search is non-blank. |
| JumpDialog.HtmlEscape | sp/app/ui/jump_dialog.py:381-386 | Escaped text is well escaped: it contains no `<`, `>`, `"` or `'`, and every `&` starts one of the five entities `html.escape` writes. |
| JumpDialog.EscapeUnique | sp/app/ui/jump_dialog.py:381-386 | The escaped text is the only well-escaped text that unescapes to the original, so escaping is fixed by the round trip. |
| JumpDialog.EscapeRoundTrip | sp/app/ui/jump_dialog.py:381-386 | Unescaping escaped text gives the text back. |
| JumpDialog.HighlightShort | sp/app/ui/jump_dialog.py:381-386 | For an empty or one-character term, the highlighted markup is well escaped (no raw `<`, `>`, `"` or `'`, every `&` an entity) and unescapes to the page text. With EscapeUnique, this makes it exactly `html.escape` of the text. |
| OpenVault.FormatVaultPath | sp/app/ui/open_vault_dialog.py:329-338 | A local vault shows its path. A remote one shows its server without the scheme, then the vault path. A `/` is inserted between them exactly when the path is non-empty and does not already start with one. |
| OpenVault.DisplayDropsScheme | sp/app/ui/open_vault_dialog.py:329-338 | `Display` drops both `http://` and `https://` from a server URL. |
| OpenVault.FormatRemote | sp/app/ui/open_vault_dialog.py:329-338 | A relative vault path gains one `/`, and an absolute one is appended as is. |
| OpenVault.SplitVaults | sp/app/ui/open_vault_dialog.py:386-388 | The local and remote lists hold exactly the local and remote vaults, each in the original order. |
| OpenVault.SplitIsPartition | sp/app/ui/open_vault_dialog.py:386-388 | Together the two lists are a permutation of the original: nothing is lost or duplicated. |
| OpenVault.AddVault | sp/app/ui/open_vault_dialog.py:435-446 | The added vault comes first. No other entry has its path, and every other vault is kept in order. |
| OpenVault.DropPath | sp/app/ui/open_vault_dialog.py:443 | Dropping a path removes exactly the vaults with that path and keeps the others in order. |
| OpenVault.AddTwice | sp/app/ui/open_vault_dialog.py:443-444 | Adding the same vault twice is the same as adding it once. |
| OpenVault.RemoveSelected | sp/app/ui/open_vault_dialog.py:460-477 | Nothing is removed without a local selection. Removal drops every entry with that path and clears the default when it was that path. |
| OpenVault.RemovedPathGone | sp/app/ui/open_vault_dialog.py:460-477 | After removal, the removed path is in no list. |
| OpenVault.FindPath | sp/app/ui/open_vault_dialog.py:261 | The combo's lookup finds the first vault with the path, or -1 exactly when none has it. |
| OpenVault.RefreshDefault | sp/app/ui/open_vault_dialog.py:255-269 | The default is kept exactly when some local vault has it, and the combo then points at that vault. Otherwise the default is cleared and saved cleared. |
| OpenVault.RefreshDefaultStable | sp/app/ui/open_vault_dialog.py:255-269 | Refreshing twice gives the same result as once, and the second refresh saves nothing. |
| OpenVault.RemoveThenRefresh | sp/app/ui/open_vault_dialog.py:460-477 | After any removal, the refreshed default is either empty or the path of a vault still listed. |
| OpenVault.PopulateList | sp/app/ui/open_vault_dialog.py:213-239 | Each row is its vault with the path as a fallback id. The selection is the first row whose id equals the target: the requested id, else the requested path, else the first vault. |
| OpenVault.PopulateSelectsFirst | sp/app/ui/open_vault_dialog.py:221-239 | With nothing requested, the first row is selected. |
| OpenVault.PopulatePrefersId | sp/app/ui/open_vault_dialog.py:221-239 | A requested id that is present wins over a requested path. |
| OpenVault.UpdateButtons | sp/app/ui/open_vault_dialog.py:393-411 | Open is enabled exactly when a row is current. The local remove button is enabled for a local row on the local tab, and the remote one for a remote row on the remote tab. |
| OpenVault.ButtonsExclusive | sp/app/ui/open_vault_dialog.py:393-411 | The two remove buttons are never enabled together. |
| OpenVault.EffectivePort | sp/app/ui/open_vault_dialog.py:496 | An explicit non-zero port is used as is. Otherwise the port is 443 for https and 80 otherwise. |
| OpenVault.DefaultPortImplicit | sp/app/ui/open_vault_dialog.py:496 | An address with the scheme's default port spelled out names the same port as one without a port. |
| OpenVault.DefaultPortSameRemoval | sp/app/ui/open_vault_dialog.py:494-518 | Removing a remote vault whose address spells out the default port, such as `https://h:443`, has exactly the effect of the bare `https://h`. |
| OpenVault.RemoveRemoteSelected | sp/app/ui/open_vault_dialog.py:479-518 | Nothing changes unless a remote row with a server URL, a path and a parsed host is selected. Then every saved server entry for that host, port and scheme loses that vault path and keeps its other paths in order, and every other entry is unchanged. The servers are saved exactly when some entry changed. The remote list loses the vaults with that id and keeps the rest in order. |
| OpenVault.DropId | sp/app/ui/open_vault_dialog.py:517 | The remote list loses exactly the vaults with the given id, and keeps the others in order. |
| OpenVault.RemoveRemoteTwice | sp/app/ui/open_vault_dialog.py:479-518 | Removing the same remote vault a second time saves nothing and leaves the servers and the remote list as the first removal left them. |
| PageEditor.WindowTitle | sp/app/ui/page_editor_window.py:287-293 | The title is the file name, marked read-only when the editor is read-only, followed by the application suffix. |
| PageEditor.TitleOfPage | sp/app/ui/page_editor_window.py:287-293 | The title starts with the page's file name. |
| PageEditor.EnsureWritable | sp/app/ui/page_editor_window.py:300-310 | Writing is allowed exactly when the editor is not read-only. A warning is shown exactly for a manual save of a read-only page. |
| PageEditor.SaveCurrentFile | sp/app/ui/page_editor_window.py:312-361 | The file is written exactly when it is dirty and writable. A successful write makes the editor clean, and anything else leaves it unchanged. Failure is reported only for manual saves. |
| PageEditor.SaveTwiceWritesOnce | sp/app/ui/page_editor_window.py:312-361 | A second save after a successful one writes nothing. |
| PageEditor.ReadOnlyNeverWritten | sp/app/ui/page_editor_window.py:300-361 | A read-only page is never written, and its editor is unchanged. |
| PageEditor.AdjustFontSize | sp/app/ui/page_editor_window.py:452-461 | The size stays within [6, 24]: it follows the step when it can, and is 24 past the top or 6 below the bottom. It reports a change exactly when the size moved. |
| PageEditor.FontStepBack | sp/app/ui/page_editor_window.py:452-461 | Below the maximum, one step up and one step down returns to the same size. |
| PageEditor.FontAtBounds | sp/app/ui/page_editor_window.py:452-461 | Stepping past either bound changes nothing and reports no change. |
| PageEditor.Candidates | sp/app/ui/page_editor_window.py:758-760 | The candidates are exactly the present headings that are not horizontal rules. |
| PageEditor.CandidatesAppend | sp/app/ui/page_editor_window.py:758-760 | The candidates keep outline order: those of a concatenation are those of each part, one after the other. |
| PageEditor.CandidatesOne | sp/app/ui/page_editor_window.py:758-760 | A single entry is a candidate exactly when it is present and not a horizontal rule. |
| PageEditor.CyclePopup | sp/app/ui/page_editor_window.py:820-842 | Cycling does nothing outside heading mode or without candidates. Otherwise it opens the popup on the candidates or moves the index one step, wrapping around. |
| PageEditor.StepIndex | sp/app/ui/page_editor_window.py:838-841 | The next index stays in range and wraps at both ends, as Python's `%` does. |
| PageEditor.CycleKeepsValid | sp/app/ui/page_editor_window.py:820-842 | Cycling keeps the popup's index valid for its items. |
| PageEditor.CycleThereAndBack | sp/app/ui/page_editor_window.py:820-842 | On an open popup, a step forward and a step back return to the same index. |
| PageEditor.HidePopup | sp/app/ui/page_editor_window.py:877-883 | Hiding empties the popup and resets its index and mode. |
| PageEditor.ActivateSelection | sp/app/ui/page_editor_window.py:844-875 | Activation hides the popup and jumps exactly when a heading is selected in heading mode, to that heading. |
| PageEditor.CursorTarget | sp/app/ui/page_editor_window.py:855-870 | The cursor goes to the heading's position when it is positive. Otherwise it goes to the start of the heading's line, and to 0 when that line does not exist. It is never negative. |
| PageEditor.ActivateAfterCycle | sp/app/ui/page_editor_window.py:820-875 | Cycling then activating jumps to a candidate heading whenever there are candidates. |
| PageEditor.Row | sp/app/ui/page_editor_window.py:663-677 | A picker row starts with four spaces per level below the first, with the level clamped to 1..5, followed by the heading title, and ends with `  (line N)`. |
| PageEditor.RowNamesLine | sp/app/ui/page_editor_window.py:670-673 | The heading's line number can be read back from the end of its row. |
| PageEditor.Filter | sp/app/ui/page_editor_window.py:663-677 | The headings kept are exactly those whose lower-cased title contains the needle. |
| PageEditor.FilterAppend | sp/app/ui/page_editor_window.py:663-677 | Filtering keeps outline order: the kept headings of a concatenation are those of each part, one after the other. |
| PageEditor.FilterOne | sp/app/ui/page_editor_window.py:663-677 | A single heading is kept exactly when it matches. |
| PageEditor.Populate | sp/app/ui/page_editor_window.py:663-677 | The rows show the filtered headings, and the first row is selected whenever there is one. |
| PageEditor.BlankQueryKeepsAll | sp/app/ui/page_editor_window.py:663-677 | A blank query keeps every heading. |
| PageEditor.TypingNarrows | sp/app/ui/page_editor_window.py:663-677 | Extending the needle never adds headings. |
| PageEditor.PickerPosition | sp/app/ui/page_editor_window.py:740-750 | Horizontally the anchor is clamped into the screen: it is kept when the picker fits there, moved left to the last fitting position past the right edge, and set to the screen's left edge when it lies left of the screen or the picker is wider than the screen. The picker is placed above or below the anchor as preferred, and flips when there is no room. |
| PageEditor.PickerClearsAnchor | sp/app/ui/page_editor_window.py:740-750 | When the preferred side has room, the picker does not cover the anchor point. |
| MermaidEditor.ErrorSvg | sp/app/ui/mermaid_editor_window.py:41-66 | The error body unescapes to the message and has no raw newline. Its title names the line. |
| MermaidEditor.EscapeRoundTrip | sp/app/ui/mermaid_editor_window.py:43-48 | Unescaping the escaped message gives the message back. |
| MermaidEditor.NoRawAngles | sp/app/ui/mermaid_editor_window.py:43-48 | The escaped message has one `<` per newline and no other. Without newlines it has no angle brackets at all. |
| MermaidEditor.ErrorTitle | sp/app/ui/mermaid_editor_window.py:42 | The title names the line exactly when the line number is positive. |
| MermaidEditor.TitleNamesLine | sp/app/ui/mermaid_editor_window.py:42 | The title is longer than the bare heading exactly when a line is named, and it then contains the number. |
| MermaidEditor.LineNumber | sp/app/ui/mermaid_editor_window.py:1138-1146 | A line number is found only in a message that contains `line`. |
| MermaidEditor.LineNumberRead | sp/app/ui/mermaid_editor_window.py:1138-1146 | A message starting `line N` yields N. |
| MermaidEditor.NoLineWord | sp/app/ui/mermaid_editor_window.py:1138-1146 | A message without `line` yields 0. |
| MermaidEditor.FailureMessage | sp/app/ui/mermaid_editor_window.py:1137 | The message is the error message, else stderr, else a fixed text, and it is never empty. |
| MermaidEditor.RenderView | sp/app/ui/mermaid_editor_window.py:1120-1150 | A successful render shows its SVG. A failure shows an error SVG built from the failure message and its line number, with up to 500 characters of stderr as details. |
| MermaidEditor.StderrNotRepeated | sp/app/ui/mermaid_editor_window.py:1147-1149 | When stderr is the message itself, no details section repeats it. |
| MermaidEditor.ExtractFence | sp/app/ui/mermaid_editor_window.py:731-740 | After the first case-insensitive mermaid fence, or else after the first plain fence, the result is the stripped text up to the next fence. When that text is empty or there is no closing fence, the reply is kept whole, as it is when there is no fence at all. |
| MermaidEditor.MermaidBlock | sp/app/ui/mermaid_editor_window.py:731-734 | A response that is one mermaid fence yields its stripped body. |
| MermaidEditor.OnEdit | sp/app/ui/mermaid_editor_window.py:1086-1090 | An edit marks the diagram dirty and starts the timer when auto-render is on. |
| MermaidEditor.OnRender | sp/app/ui/mermaid_editor_window.py:1092-1150 | A render makes the diagram clean and stops the timer. |
| MermaidEditor.OnToggle | sp/app/ui/mermaid_editor_window.py:971-976 | Turning auto-render on with pending edits starts the timer. |
| MermaidEditor.StatusText | sp/app/ui/mermaid_editor_window.py:978-984 | The hint is shown exactly when auto-render is off and there are unrendered edits. |
| MermaidEditor.OnSave | sp/app/ui/mermaid_editor_window.py:1075-1078 | A save clears the dirty flag and leaves a pending render timer running. |
| MermaidEditor.RunKeepsConsistent | sp/app/ui/mermaid_editor_window.py:971-1090 | `Run` applies each event with `Step`. Over any sequence of edits, renders, toggles and saves, auto-render always has a render pending for unrendered edits. Without saves, a running timer always means pending edits. |
| MermaidEditor.SaveLeavesTimer | sp/app/ui/mermaid_editor_window.py:1075-1090 | Saving while a render is pending leaves the timer running on a clean text, and it then renders unchanged text. |
| MermaidEditor.AutoRenderHidesHint | sp/app/ui/mermaid_editor_window.py:978-984 | With auto-render on, after any sequence of events, no hint is shown. |
| MermaidEditor.ZoomOut | sp/app/ui/mermaid_editor_window.py:1248-1250 | Zooming out lowers the level by one, except at the floor, while `ZoomIn` always raises it by one. |
| MermaidEditor.ZoomStaysAboveFloor | sp/app/ui/mermaid_editor_window.py:1236-1286 | No sequence of zoom steps takes a level that starts at or above the floor below it. |
| MermaidEditor.EditorFontReadable | sp/app/ui/mermaid_editor_window.py:1236-1260 | The editor font never drops below 6 points. |
| MermaidEditor.InsertShortcut | sp/app/ui/mermaid_editor_window.py:495-513 | An empty snippet changes nothing. Otherwise the text before the cursor is kept, and the snippet is inserted after a newline when the cursor is mid-line, ending with a newline. |
| MermaidEditor.SnippetOnOwnLine | sp/app/ui/mermaid_editor_window.py:509-513 | An inserted snippet starts at the beginning of a line. |
| MermaidEditor.SnippetVerbatim | sp/app/ui/mermaid_editor_window.py:506-513 | A snippet without the `!!BR!!` marker is inserted exactly as given, followed by a newline, and preceded by one only when the cursor was mid-line. |
| MermaidEditor.AppendPrompt | sp/app/ui/mermaid_editor_window.py:649-650 | The prompt is appended unless it repeats the last one. The history ends with the prompt and never gains adjacent repeats. |
| MermaidEditor.HistoryShape | sp/app/ui/mermaid_editor_window.py:649-650 | After any sequence of prompts, the history has no adjacent repeats and contains every prompt sent. |
| VaultPreferences.ToCheckState | sp/app/ui/vault_preferences_dialog.py:81-96 | An unset override shows as partially checked, and true shows as checked. |
| VaultPreferences.CheckboxValue | sp/app/ui/vault_preferences_dialog.py:81-96 | Partial means unset, and checked means true. |
| VaultPreferences.TriStateRoundTrip | sp/app/ui/vault_preferences_dialog.py:81-96 | Showing and reading back are inverse in both directions. |
| VaultPreferences.Load | sp/app/ui/vault_preferences_dialog.py:37-68 | Each of the six boxes shows its stored override, so it reads back as that override. |
| VaultPreferences.Open | sp/app/ui/vault_preferences_dialog.py:21-72 | The values remembered at opening are those the boxes show. |
| VaultPreferences.CollectValues | sp/app/ui/vault_preferences_dialog.py:98-106 | The six boxes are collected under exactly the six feature keys. |
| VaultPreferences.CollectInjective | sp/app/ui/vault_preferences_dialog.py:98-106 | Two sets of boxes collect the same values exactly when they are equal. |
| VaultPreferences.ResetToGlobal | sp/app/ui/vault_preferences_dialog.py:108-117 | After a reset, every feature collects as unset. |
| VaultPreferences.Accept | sp/app/ui/vault_preferences_dialog.py:119-134 | All six values are saved. A reopen is requested exactly when they differ from those at opening. |
| VaultPreferences.UntouchedAccept | sp/app/ui/vault_preferences_dialog.py:119-134 | Accepting without changes stores the same overrides and requests no reopen. |
| VaultPreferences.ResetThenAccept | sp/app/ui/vault_preferences_dialog.py:108-134 | Resetting a dialog that had an override, then accepting, stores all unset and requests a reopen. |
| FolderTemplates.SortBy | sp/app/ui/folder_template_dialog.py:117-135 | `sorted` by name, in plain code-point order, returns a permutation in order. |
| FolderTemplates.InsertSorted | sp/app/ui/folder_template_dialog.py:117-135 | Inserting into a sorted list keeps it sorted. |
| FolderTemplates.AddTemplates | sp/app/ui/folder_template_dialog.py:125-135 | The templates held only grow. A new one is a directory with a `.txt` that was not held before, and names stay unique. |
| FolderTemplates.ScanListing | sp/app/ui/folder_template_dialog.py:117-135 | Scanning a base adds exactly its directories as categories, keeps the state well formed, and extends each category with the templates the base offers. |
| FolderTemplates.ScanBases | sp/app/ui/folder_template_dialog.py:110-135 | Scanning the bases in order leaves the state they determine, and missing bases are skipped. |
| FolderTemplates.LoadListsCategories | sp/app/ui/folder_template_dialog.py:110-135 | `LoadTemplates` scans the built-in base, then the user base. Its rows (`Rows`, one per category) list each category found in either base exactly once, sorted. |
| FolderTemplates.LoadListsTemplates | sp/app/ui/folder_template_dialog.py:110-135 | A row lists a template name exactly when either base offers it, each name once, taken from the first base that offers it. |
| FolderTemplates.BuiltinShadowsUser | sp/app/ui/folder_template_dialog.py:110-135 | As written, a template offered by both the built-in and the user directory is taken from the built-in one. |
| FolderTemplates.UserOverridesBuiltin | sp/app/ui/folder_template_dialog.py:133 | Scanning the user directory first lets a user template replace a built-in one of the same name. |
| FolderTemplates.TreeItems | sp/app/ui/folder_template_dialog.py:138-152 | An empty listing shows the single placeholder item. Every category has its item, and every template listed under a category has its item carrying its path. |
| FolderTemplates.ItemsCarryListedPaths | sp/app/ui/folder_template_dialog.py:138-148 | Conversely, every category item names a listed category, and every template item carries a listed template's path. |
| FolderTemplates.PreviewListsTxt | sp/app/ui/folder_template_dialog.py:173-177 | The preview (`Preview`) shows one line per `.txt` file, sorted, and every `.txt` file is shown. |
| FolderTemplates.PreviewShowsName | sp/app/ui/folder_template_dialog.py:173-177 | A file's preview line is the file icon followed by its name. |
| FolderTemplates.BareTxtShownTwice | sp/app/ui/folder_template_dialog.py:173-177 | A file named `.txt` has stem `.txt` (a dot file), so its line reads `.txt.txt`. |
| FolderTemplates.OnSelectionChanged | sp/app/ui/folder_template_dialog.py:154-185 | A template item is selected and its preview is that template's `.txt` files. A category item or no item clears both. The typed name is kept, and the placeholder changes only when a template is selected with no name typed. |
| FolderTemplates.PlaceholderSuggestsName | sp/app/ui/folder_template_dialog.py:179-183 | Selecting a template suggests its name as the placeholder. |
| FolderTemplates.OnAccept | sp/app/ui/folder_template_dialog.py:197-207 | Accepting succeeds exactly when OK is enabled and records the stripped name; otherwise nothing changes. |
| FolderTemplates.AcceptedNameIsClean | sp/app/ui/folder_template_dialog.py:197-207 | An accepted folder name is non-empty and has no surrounding whitespace. |
| FolderTemplates.SelectionDrivesOk | sp/app/ui/folder_template_dialog.py:191-195 | OK is enabled (`OkEnabled`) exactly when a template is selected and the name is not blank. |

## Left out

- The renderer's lock and any concurrency are not modelled. Calls are sequential.
- Subprocess and temporary-file handling are not modelled.
  - Each tool run is one `ToolOutcome` value: exited with code, stderr and output file; timed out; binary missing; or crashed.
  - The durations measured with `perf_counter` are omitted.
- SHA-256 is kept abstract. The cache key is the hashed string itself, so key injectivity is stated on the string that would be hashed and assumes no hash collision.
- Qt widgets, signals, timers, pixmaps, SVG-to-image conversion, fonts beyond their point size, and the floating-point preview zoom factor are not modelled.
- Configuration persistence is a parameter, not I/O: saving zoom levels, vault lists, the default vault and overrides.
- HTTP calls, the AI chat workers and streaming are not modelled. The AI answer arrives as a string, and only its fence extraction and the prompt history are modelled.
- `Path.expanduser` and `resolve` are not modelled. Paths are plain strings.
- Attachment bytes and the copy performed when persisting attachments are not modelled. The naming of the copies is modelled.
- The sqlite page index, `_local_vault_options` and the `path_utils` display labels are not modelled.
- The Mermaid editor's file reads and writes, and the fixed SVG template text around the title and body, are not modelled. A save is modelled only by its effect on the dirty flag (`Save`).
- The quick-capture overlay, the inline AI prompt and the packaging runtime hook are UI glue around the capture logic and are not modelled.
- CaptureLite.RunLite, CaptureLite.BlankTextWritesNothing: the overlay branch is modelled as intended, not as written. The text typed into the overlay is an input; the vault the overlay's picker would choose and pasted attachments are not modelled. The as-written crash is RunLiteAsWritten (see Findings).
- The Mermaid editor's duplicate geometry helpers (mermaid_editor_window.py:348-386, shadowed by the later definitions at 986-1034) are not modelled.
- `iterdir` order within a directory is unspecified in Python. The listing is taken as given, and the dialog sorts it.
- PAGE_SUFFIX is fixed at `.md`.
- Strings: `str.strip`, `split` and `lower` are modelled for ASCII only. Non-ASCII whitespace and case mappings are left out, and `splitlines` splits on `\n` only.
- JumpDialog.HighlightShort: only the branch for search terms of zero or one character is modelled. Longer terms go through a regular-expression substitution, which is not modelled.
- OpenVault.PopulateList: the model cannot tell a missing `id` key from an explicit `"id": None`, and gives both the path as id. The source (open_vault_dialog.py:223-224) fills in the path only when the key is missing, so a vault stored with `"id": None` keeps `None`.
- OpenVault: `_remove_remote_server_by_url` (open_vault_dialog.py:520) has no caller and is not modelled.
- MermaidEditor.LineNumber: it states that a number is found only when `line` occurs, and reads back `line N` at the start of a message. It does not characterise the regular-expression search at other positions beyond the first match the model finds.
- Capture.ColonToPagePath, Capture.ResolveCustomPageRef, Capture.BuildEntry, Capture.ResolvePageMode: each carries a small contract of its own. The full meaning comes from the agreement lemma with the lite tool.

## Findings

| source | as written | input that shows it | evidently intended | confidence | as-written member | corrected member |
|---|---|---|---|---|---|---|
| sp/app/ui/folder_template_dialog.py:110-134 | The built-in template directory is scanned before the user's, and a name already held is skipped. A user template is therefore hidden by a built-in one of the same category and name. | Both directories hold `Projects/Weekly/` with a `.txt` file. | The comment at line 132 says user templates override built-in ones, so the user's `Weekly` should win. | medium, not executed | FolderTemplates.BuiltinShadowsUser | FolderTemplates.UserOverridesBuiltin |
| sp/app/quickcapture_lite.py:38-43 | Without `--text`, the overlay is built with `vault_options` and `selected_vault`, which the constructor of `QuickCaptureOverlay` (sp/app/ui/quick_capture_overlay.py:36-41) does not accept. The `TypeError` is not caught, and the process exits with status 1. Even if construction succeeded, `_capture` calls the callback with one argument instead of three, and that error is swallowed (sp/app/ui/quick_capture_overlay.py:90-96). | `--vault /v` with no `--text`. | The overlay opens, and the typed text is written to the journal, or the run exits 0 when it is dismissed. | high, not executed | CaptureLite.RunLiteAsWritten | CaptureLite.RunLite |
