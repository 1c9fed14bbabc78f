// The list logic of the vault picker: how a vault's location is displayed,
// how the known vaults split into local and remote lists, adding and removing
// vaults, reconciling the default vault, choosing the row to select, which
// buttons are enabled, and removing a remote vault from its server entry.

module OpenVault {
  import opened Strings

  const RemoteKind := "remote"

  /** A vault as the dialog holds it. A missing key is `None`. */
  datatype Vault = Vault(
    name: Option<string>,
    path: Option<string>,
    kind: Option<string>,
    serverUrl: Option<string>,
    id: Option<string>)

  predicate IsRemote(v: Vault)
  {
    v.kind == Some(RemoteKind)
  }

  // ---------------------------------------------------------------------
  // Subsequences

  /** `a` can be obtained from `b` by deleting elements, keeping the order. */
  predicate IsSubseq<T(==)>(a: seq<T>, b: seq<T>)
    decreases |b|
  {
    if b == [] then a == []
    else (a != [] && a[0] == b[0] && IsSubseq(a[1..], b[1..])) || IsSubseq(a, b[1..])
  }

  // ---------------------------------------------------------------------
  // Display

  /** The server address without its scheme. */
  function Display(url: string): string
  {
    ReplaceAll(ReplaceAll(url, "http://", ""), "https://", "")
  }

  /** The location line under a vault's name: the path of a local vault;
      for a remote vault, the server address without `http://` or
      `https://`, then the vault path with a leading slash. */
  function FormatVaultPath(v: Vault): (r: string)
    ensures !IsRemote(v) ==> r == OrEmpty(v.path)
    ensures IsRemote(v) ==>
      var shown := Display(OrEmpty(v.serverUrl));
      var p := OrEmpty(v.path);
      StartsWith(r, shown) && EndsWith(r, p) &&
      (p == "" ==> r == shown) &&
      (p != "" ==> |shown| < |r| <= |shown| + |p| + 1 && r[|shown|] == '/') &&
      |r| == |shown| + |p| + (if p != "" && !StartsWith(p, "/") then 1 else 0)
  {
    if IsRemote(v) then
      var shown := Display(OrEmpty(v.serverUrl));
      var p := OrEmpty(v.path);
      var p' := if p != "" && !StartsWith(p, "/") then "/" + p else p;
      assert (shown + p')[..|shown|] == shown;
      assert (shown + p')[|shown + p'| - |p|..] == p;
      shown + p'
    else OrEmpty(v.path)
  }

  /** `"https://"` never contains `"http://"` in front of a host that does
      not contain it either. */
  lemma HttpsPrefixNoHttp(host: string)
    requires !Contains(host, "http://")
    ensures !Contains("https://" + host, "http://")
  {
    var s := "https://" + host;
    forall i | 0 <= i <= |s| - 7
      ensures !OccursAt(s, "http://", i)
    {
      if i < 8 {
        assert s[i] != 'h' || s[i + 4] != ':';
        assert s[i..i + 7][0] == s[i] && s[i..i + 7][4] == s[i + 4];
      } else {
        assert s[i..i + 7] == host[i - 8..i - 8 + 7];
        assert !OccursAt(host, "http://", i - 8);
      }
    }
  }

  /** A server given with either scheme is shown as the bare host. */
  lemma DisplayDropsScheme(host: string)
    requires !Contains(host, "http://") && !Contains(host, "https://")
    ensures Display("http://" + host) == host
    ensures Display("https://" + host) == host
  {
    DropHttp(host);
    DropHttps(host);
  }

  lemma DropHttp(host: string)
    requires !Contains(host, "http://") && !Contains(host, "https://")
    ensures Display("http://" + host) == host
  {
    var a := ReplaceAll("http://" + host, "http://", "");
    ReplaceLeading("http://", host, "");
    assert a == "" + host == host;
    assert Display("http://" + host) == ReplaceAll(a, "https://", "");
  }

  lemma DropHttps(host: string)
    requires !Contains(host, "http://") && !Contains(host, "https://")
    ensures Display("https://" + host) == host
  {
    HttpsPrefixNoHttp(host);
    ReplaceLeading("https://", host, "");
  }

  /** A remote vault on `https://host` with a relative path is shown as
      `host/path`; one whose path already starts with a slash is not given
      a second one. */
  lemma FormatRemote(v: Vault, host: string, p: string)
    requires IsRemote(v) && v.serverUrl == Some("https://" + host) && v.path == Some(p)
    requires !Contains(host, "http://") && !Contains(host, "https://")
    ensures !StartsWith(p, "/") && p != "" ==> FormatVaultPath(v) == host + "/" + p
    ensures StartsWith(p, "/") ==> FormatVaultPath(v) == host + p
  {
    DisplayDropsScheme(host);
  }

  // ---------------------------------------------------------------------
  // Partition into local and remote

  /** The vaults whose remoteness is `remote`, in order. */
  function Keep(vs: seq<Vault>, remote: bool): (r: seq<Vault>)
    ensures forall v :: v in r <==> v in vs && IsRemote(v) == remote
    ensures IsSubseq(r, vs)
  {
    if vs == [] then []
    else
      var rest := Keep(vs[1..], remote);
      if IsRemote(vs[0]) == remote then
        assert ([vs[0]] + rest)[1..] == rest;
        [vs[0]] + rest
      else rest
  }

  /** The local list holds the vaults that are not remote, the remote list
      the rest, each in the original order. */
  function SplitVaults(vs: seq<Vault>): (r: (seq<Vault>, seq<Vault>))
    ensures forall v :: v in r.0 <==> v in vs && !IsRemote(v)
    ensures forall v :: v in r.1 <==> v in vs && IsRemote(v)
    ensures IsSubseq(r.0, vs) && IsSubseq(r.1, vs)
  {
    (Keep(vs, false), Keep(vs, true))
  }

  /** Splitting loses and duplicates nothing. */
  lemma {:induction false} SplitIsPartition(vs: seq<Vault>)
    ensures multiset(SplitVaults(vs).0) + multiset(SplitVaults(vs).1) == multiset(vs)
  {
    if vs != [] {
      SplitIsPartition(vs[1..]);
      assert vs == [vs[0]] + vs[1..];
    }
  }

  // ---------------------------------------------------------------------
  // Adding and removing local vaults

  /** The vaults whose path is not `p`, in order. */
  function DropPath(vs: seq<Vault>, p: Option<string>): (r: seq<Vault>)
    ensures forall v :: v in r <==> v in vs && v.path != p
    ensures IsSubseq(r, vs)
  {
    if vs == [] then []
    else
      var rest := DropPath(vs[1..], p);
      if vs[0].path != p then
        assert ([vs[0]] + rest)[1..] == rest;
        [vs[0]] + rest
      else rest
  }

  /** Adding a vault puts it first and drops every other entry with its
      path. */
  function AddVault(locals: seq<Vault>, added: Vault): (r: seq<Vault>)
    ensures |r| >= 1 && r[0] == added
    ensures forall i :: 1 <= i < |r| ==> r[i].path != added.path
    ensures IsSubseq(r[1..], locals)
    ensures forall v :: v in locals && v.path != added.path ==> v in r
  {
    var rest := DropPath(locals, added.path);
    assert ([added] + rest)[1..] == rest;
    [added] + rest
  }

  /** Adding the same vault twice is adding it once. */
  lemma {:induction false} DropPathIdempotent(vs: seq<Vault>, p: Option<string>)
    ensures DropPath(DropPath(vs, p), p) == DropPath(vs, p)
  {
    if vs != [] {
      DropPathIdempotent(vs[1..], p);
      if vs[0].path != p {
        assert DropPath(vs, p)[1..] == DropPath(vs[1..], p);
      }
    }
  }

  lemma AddTwice(locals: seq<Vault>, added: Vault)
    ensures AddVault(AddVault(locals, added), added) == AddVault(locals, added)
  {
    var once := AddVault(locals, added);
    DropPathIdempotent(locals, added.path);
    assert once == [added] + DropPath(locals, added.path);
    assert DropPath(once, added.path) == DropPath(once[1..], added.path);
    assert once[1..] == DropPath(locals, added.path);
  }

  /** The local list and the default vault. */
  datatype LocalState = LocalState(locals: seq<Vault>, defaultVault: Option<string>)

  /** Removing the selected vault: the outcome state, whether the default
      was cleared in the configuration, and the path to select next. */
  datatype Removal = Removal(state: LocalState, clearedDefault: bool, nextSelection: Option<string>)

  /** Removing the selected row of the local list. No row, a row without
      data and a remote vault change nothing. Otherwise every entry with
      the selected path goes, and the default is cleared when it was that
      path. */
  function RemoveSelected(s: LocalState, selected: Option<Vault>): (r: Removal)
    ensures selected.None? || IsRemote(selected.value) ==> r == Removal(s, false, None)
    ensures selected.Some? && !IsRemote(selected.value) ==>
      var p := selected.value.path;
      (forall v :: v in r.state.locals <==> v in s.locals && v.path != p) &&
      IsSubseq(r.state.locals, s.locals) &&
      (r.clearedDefault <==> Truthy(p) && s.defaultVault == p) &&
      (r.state.defaultVault == if r.clearedDefault then None else s.defaultVault) &&
      (r.nextSelection == if r.state.locals == [] then None else r.state.locals[0].path)
  {
    if selected.None? || IsRemote(selected.value) then Removal(s, false, None)
    else
      var p := selected.value.path;
      var locals := DropPath(s.locals, p);
      var cleared := Truthy(p) && s.defaultVault == p;
      var next := if locals == [] then None else locals[0].path;
      Removal(LocalState(locals, if cleared then None else s.defaultVault), cleared, next)
  }

  /** After a removal no entry keeps the removed path, so a default equal
      to it cannot survive. */
  lemma RemovedPathGone(s: LocalState, v: Vault)
    requires !IsRemote(v) && Truthy(v.path)
    ensures var r := RemoveSelected(s, Some(v));
      (forall w :: w in r.state.locals ==> w.path != v.path) &&
      r.state.defaultVault != v.path
  {
  }

  // ---------------------------------------------------------------------
  // Default vault reconciliation

  /** The index of the first vault with path `p`, or -1. */
  function FindPath(vs: seq<Vault>, p: string): (r: int)
    ensures -1 <= r < |vs|
    ensures r >= 0 ==> vs[r].path == Some(p) && forall i :: 0 <= i < r ==> vs[i].path != Some(p)
    ensures r == -1 <==> forall i :: 0 <= i < |vs| ==> vs[i].path != Some(p)
  {
    if vs == [] then -1
    else if vs[0].path == Some(p) then 0
    else
      var k := FindPath(vs[1..], p);
      assert forall i :: 1 <= i < |vs| ==> vs[i] == vs[1..][i - 1];
      if k == -1 then -1 else k + 1
  }

  /** The default-vault combo box after a refresh: the kept default, the
      selected entry (0 is "No default", entry i + 1 is local vault i), and
      whether a cleared default had to be saved. */
  datatype DefaultCombo = DefaultCombo(defaultVault: Option<string>, index: nat, savedClear: bool)

  /** A default is kept only while some local vault has that path;
      otherwise it becomes `None`, and is saved as such when it was set. */
  function RefreshDefault(locals: seq<Vault>, defaultVault: Option<string>): (r: DefaultCombo)
    ensures r.index <= |locals|
    ensures r.defaultVault == defaultVault || r.defaultVault == None
    ensures r.defaultVault.Some? <==>
      defaultVault.Some? && exists i :: 0 <= i < |locals| && locals[i].path == defaultVault
    ensures r.index > 0 <==> r.defaultVault.Some?
    ensures r.index > 0 ==> locals[r.index - 1].path == r.defaultVault
    ensures r.savedClear <==> defaultVault.Some? && r.defaultVault.None?
  {
    if defaultVault.None? then DefaultCombo(None, 0, false)
    else
      var k := FindPath(locals, defaultVault.value);
      if k == -1 then DefaultCombo(None, 0, true)
      else DefaultCombo(defaultVault, k + 1, false)
  }

  /** A second refresh keeps what the first one settled and saves
      nothing. */
  lemma RefreshDefaultStable(locals: seq<Vault>, defaultVault: Option<string>)
    ensures var once := RefreshDefault(locals, defaultVault);
      var twice := RefreshDefault(locals, once.defaultVault);
      twice.defaultVault == once.defaultVault && twice.index == once.index && !twice.savedClear
  {
  }

  /** Removing a vault and refreshing leaves no default, or the path of a
      vault still listed. */
  lemma RemoveThenRefresh(s: LocalState, selected: Option<Vault>)
    ensures var r := RemoveSelected(s, selected);
      var c := RefreshDefault(r.state.locals, r.state.defaultVault);
      c.defaultVault.None? || exists w :: w in r.state.locals && w.path == c.defaultVault
  {
    var r := RemoveSelected(s, selected);
    var c := RefreshDefault(r.state.locals, r.state.defaultVault);
    if c.defaultVault.Some? {
      assert r.state.locals[c.index - 1].path == c.defaultVault;
    }
  }

  // ---------------------------------------------------------------------
  // Filling a list and selecting a row

  /** A vault without an id takes its path as id. */
  function WithId(v: Vault): (r: Vault)
    ensures r.id == (if v.id.None? then v.path else v.id)
    ensures r.path == v.path && r.kind == v.kind && r.name == v.name && r.serverUrl == v.serverUrl
  {
    if v.id.None? then v.(id := v.path) else v
  }

  /** The row to select: the given id, else the given path, else the first
      vault's path. */
  function Target(vs: seq<Vault>, selectPath: Option<string>, selectId: Option<string>): (r: Option<string>)
    requires vs != []
    ensures Truthy(selectId) ==> r == selectId
    ensures !Truthy(selectId) && Truthy(selectPath) ==> r == selectPath
    ensures !Truthy(selectId) && !Truthy(selectPath) ==> r == vs[0].path
  {
    OrElse(OrElse(selectId, selectPath), vs[0].path)
  }

  /** The index of the first vault with the given id, if any. */
  function FindId(vs: seq<Vault>, id: Option<string>): (r: Option<nat>)
    ensures r.Some? ==> r.value < |vs| && vs[r.value].id == id && forall i :: 0 <= i < r.value ==> vs[i].id != id
    ensures r.None? <==> forall i :: 0 <= i < |vs| ==> vs[i].id != id
  {
    if vs == [] then None
    else if vs[0].id == id then Some(0)
    else
      var k := FindId(vs[1..], id);
      assert forall i :: 1 <= i < |vs| ==> vs[i].id == vs[1..][i - 1].id;
      if k.None? then None else Some(k.value + 1)
  }

  /** Filling a list: every vault gets an id, and the current row is the
      first whose id is the target, if any. An empty list selects
      nothing. */
  function PopulateList(vs: seq<Vault>, selectPath: Option<string>, selectId: Option<string>): (r: (seq<Vault>, Option<nat>))
    ensures |r.0| == |vs|
    ensures forall i :: 0 <= i < |vs| ==> r.0[i] == WithId(vs[i])
    ensures vs == [] ==> r.1 == None
    ensures r.1.Some? ==> r.1.value < |vs| && r.0[r.1.value].id == Target(vs, selectPath, selectId)
    ensures vs != [] && r.1.None? ==> forall i :: 0 <= i < |vs| ==> r.0[i].id != Target(vs, selectPath, selectId)
  {
    var ided := seq(|vs|, i requires 0 <= i < |vs| => WithId(vs[i]));
    if vs == [] then (ided, None)
    else (ided, FindId(ided, Target(vs, selectPath, selectId)))
  }

  /** With no selection requested, the first vault is selected whenever it
      has a path. */
  lemma PopulateSelectsFirst(vs: seq<Vault>)
    requires vs != [] && vs[0].path.Some? && vs[0].id.None?
    ensures PopulateList(vs, None, None).1 == Some(0)
  {
    var r := PopulateList(vs, None, None);
    assert r.0[0].id == vs[0].path;
  }

  /** A requested id present in the list wins over a requested path. */
  lemma PopulatePrefersId(vs: seq<Vault>, selectPath: Option<string>, id: string, k: nat)
    requires id != "" && k < |vs| && vs[k].id == Some(id)
    ensures var r := PopulateList(vs, selectPath, Some(id));
      r.1.Some? && r.1.value <= k && r.0[r.1.value].id == Some(id)
  {
    var r := PopulateList(vs, selectPath, Some(id));
    assert r.0[k].id == Some(id);
  }

  // ---------------------------------------------------------------------
  // Buttons

  datatype Tab = LocalTab | RemoteTab

  /** The enabled state of the local remove, remote remove and OK
      buttons. */
  datatype Buttons = Buttons(removeLocal: bool, removeRemote: bool, ok: bool)

  /** `current` is the current row of the active list: `None` when there is
      none, `Some(None)` for a row without data. */
  function UpdateButtons(active: Tab, current: Option<Option<Vault>>): (r: Buttons)
    ensures r.ok <==> current.Some?
    ensures r.removeLocal <==> active == LocalTab && current.Some? && current.value.Some?
    ensures r.removeRemote <==> active == RemoteTab && current.Some? && current.value.Some? && IsRemote(current.value.value)
  {
    var has := current.Some?;
    var data := if has then current.value else None;
    var isRemote := data.Some? && IsRemote(data.value);
    Buttons(has && active == LocalTab && data.Some?, active == RemoteTab && isRemote, has)
  }

  /** At most one remove button is enabled, and only alongside OK. */
  lemma ButtonsExclusive(active: Tab, current: Option<Option<Vault>>)
    ensures var b := UpdateButtons(active, current);
      !(b.removeLocal && b.removeRemote) && (b.removeLocal || b.removeRemote ==> b.ok)
  {
  }

  // ---------------------------------------------------------------------
  // Removing a remote vault from its server entry

  /** What parsing the server address yields; an address that fails to
      parse is `None` where this is used. */
  datatype ParsedUrl = ParsedUrl(hostname: Option<string>, port: Option<int>, scheme: string)

  /** A saved server entry. `portText` is the text of its port as stored;
      `selectedVaults` is `None` when the entry has no list. */
  datatype Server = Server(host: Option<string>, portText: string, scheme: Option<string>, selectedVaults: Option<seq<string>>)

  /** The port to match: the parsed one, else 443 for https and 80
      otherwise. */
  function EffectivePort(u: ParsedUrl): (r: int)
    ensures u.port.Some? && u.port.value != 0 ==> r == u.port.value
    ensures (u.port.None? || u.port.value == 0) ==> r == (if u.scheme == "https" then 443 else 80)
  {
    if u.port.Some? && u.port.value != 0 then u.port.value
    else if u.scheme == "https" then 443 else 80
  }

  /** Spelling out the scheme's default port names the same port as
      leaving it out. */
  lemma DefaultPortImplicit(u: ParsedUrl)
    requires u.port == Some(if u.scheme == "https" then 443 else 80)
    ensures EffectivePort(u) == EffectivePort(u.(port := None))
  {
  }

  /** An entry for the same host, port and scheme; an entry without a
      scheme counts as http. */
  predicate SameServer(e: Server, host: string, port: int, scheme: string)
  {
    e.host == Some(host) && e.portText == IntToString(port) &&
    (if e.scheme.Some? then e.scheme.value else "http") == scheme
  }

  function Without(ps: seq<string>, p: string): (r: seq<string>)
    ensures forall q :: q in r <==> q in ps && q != p
    ensures IsSubseq(r, ps)
  {
    if ps == [] then []
    else
      var rest := Without(ps[1..], p);
      if ps[0] != p then
        assert ([ps[0]] + rest)[1..] == rest;
        [ps[0]] + rest
      else rest
  }

  /** One server entry after dropping `path` from it when it matches. */
  function DropFromServer(e: Server, host: string, port: int, scheme: string, path: string): (r: Server)
  {
    if SameServer(e, host, port, scheme) && e.selectedVaults.Some? && path in e.selectedVaults.value
    then e.(selectedVaults := Some(Without(e.selectedVaults.value, path)))
    else e
  }

  predicate Touches(e: Server, host: string, port: int, scheme: string, path: string)
  {
    SameServer(e, host, port, scheme) && e.selectedVaults.Some? && path in e.selectedVaults.value
  }

  /** The remote state: saved servers and the remote list. `saved` says
      whether the servers were written back. */
  datatype RemoteRemoval = RemoteRemoval(servers: seq<Server>, saved: bool, remotes: seq<Vault>)

  /** Removing the selected remote vault: it leaves the selection lists of
      exactly the matching servers, and every vault with its id leaves the
      remote list. A missing row, a non-remote vault, a missing address or
      path, an unparsable address or one without a host change nothing. */
  function RemoveRemoteSelected(servers: seq<Server>, remotes: seq<Vault>, selected: Option<Vault>,
                                parsed: Option<ParsedUrl>): (r: RemoteRemoval)
    ensures var go := selected.Some? && IsRemote(selected.value) && Truthy(selected.value.serverUrl)
                      && Truthy(selected.value.path) && parsed.Some? && Truthy(parsed.value.hostname);
      (!go ==> r == RemoteRemoval(servers, false, remotes)) &&
      (go ==>
        var v := selected.value;
        var host := parsed.value.hostname.value;
        var port := EffectivePort(parsed.value);
        var scheme := if parsed.value.scheme != "" then parsed.value.scheme else "http";
        |r.servers| == |servers| &&
        (forall i :: 0 <= i < |servers| && !Touches(servers[i], host, port, scheme, v.path.value) ==> r.servers[i] == servers[i]) &&
        (forall i :: 0 <= i < |servers| && Touches(servers[i], host, port, scheme, v.path.value) ==>
           r.servers[i].selectedVaults.Some? && v.path.value !in r.servers[i].selectedVaults.value &&
           r.servers[i] == servers[i].(selectedVaults := r.servers[i].selectedVaults) &&
           IsSubseq(r.servers[i].selectedVaults.value, servers[i].selectedVaults.value) &&
           (forall q :: q in servers[i].selectedVaults.value && q != v.path.value ==> q in r.servers[i].selectedVaults.value)) &&
        (r.saved <==> exists i :: 0 <= i < |servers| && Touches(servers[i], host, port, scheme, v.path.value)) &&
        (forall w :: w in r.remotes <==> w in remotes && w.id != v.id) &&
        IsSubseq(r.remotes, remotes))
  {
    if selected.None? || !IsRemote(selected.value) then RemoteRemoval(servers, false, remotes)
    else
      var v := selected.value;
      if !Truthy(v.serverUrl) || !Truthy(v.path) then RemoteRemoval(servers, false, remotes)
      else if parsed.None? || !Truthy(parsed.value.hostname) then RemoteRemoval(servers, false, remotes)
      else
        var host := parsed.value.hostname.value;
        var port := EffectivePort(parsed.value);
        var scheme := if parsed.value.scheme != "" then parsed.value.scheme else "http";
        var path := v.path.value;
        var updated := seq(|servers|, i requires 0 <= i < |servers| => DropFromServer(servers[i], host, port, scheme, path));
        var changed := exists i | 0 <= i < |servers| :: Touches(servers[i], host, port, scheme, path);
        RemoteRemoval(updated, changed, DropId(remotes, v.id))
  }

  /** An address with the scheme's default port spelled out, such as
      `https://h:443`, removes a vault exactly as the bare `https://h`
      does. */
  lemma DefaultPortSameRemoval(servers: seq<Server>, remotes: seq<Vault>, selected: Option<Vault>, u: ParsedUrl)
    requires u.port == Some(if u.scheme == "https" then 443 else 80)
    ensures RemoveRemoteSelected(servers, remotes, selected, Some(u))
         == RemoveRemoteSelected(servers, remotes, selected, Some(u.(port := None)))
  {
    DefaultPortImplicit(u);
  }

  /** The remote list without the vaults carrying `id`, in list order. */
  function DropId(vs: seq<Vault>, id: Option<string>): (r: seq<Vault>)
    ensures forall w :: w in r <==> w in vs && w.id != id
    ensures IsSubseq(r, vs)
  {
    if vs == [] then []
    else
      var rest := DropId(vs[1..], id);
      if vs[0].id != id then
        assert ([vs[0]] + rest)[1..] == rest;
        [vs[0]] + rest
      else rest
  }

  /** Removing the same remote vault a second time saves nothing. */
  lemma RemoveRemoteTwice(servers: seq<Server>, remotes: seq<Vault>, v: Vault, parsed: ParsedUrl)
    ensures var once := RemoveRemoteSelected(servers, remotes, Some(v), Some(parsed));
      var twice := RemoveRemoteSelected(once.servers, once.remotes, Some(v), Some(parsed));
      !twice.saved && twice.servers == once.servers && twice.remotes == once.remotes
  {
    var once := RemoveRemoteSelected(servers, remotes, Some(v), Some(parsed));
    var twice := RemoveRemoteSelected(once.servers, once.remotes, Some(v), Some(parsed));
    if IsRemote(v) && Truthy(v.serverUrl) && Truthy(v.path) && Truthy(parsed.hostname) {
      var host := parsed.hostname.value;
      var port := EffectivePort(parsed);
      var scheme := if parsed.scheme != "" then parsed.scheme else "http";
      assert forall i :: 0 <= i < |once.servers| ==>
        DropFromServer(once.servers[i], host, port, scheme, v.path.value) == once.servers[i];
      DropIdIdempotent(remotes, v.id);
    }
  }

  /** Dropping the same id twice is dropping it once. */
  lemma {:induction false} DropIdIdempotent(vs: seq<Vault>, id: Option<string>)
    ensures DropId(DropId(vs, id), id) == DropId(vs, id)
  {
    if vs != [] {
      DropIdIdempotent(vs[1..], id);
      if vs[0].id != id {
        assert DropId(vs, id)[1..] == DropId(vs[1..], id);
      }
    }
  }
}
