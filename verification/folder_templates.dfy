// The "new folder from template" dialog. Templates live in two base
// directories, the built-in one and the user's; each sub-directory of a base
// is a category, and each sub-directory of a category that holds at least
// one `*.txt` entry is a template. The dialog lists categories and their
// templates in name order and accepts once a template is chosen and a
// folder name is typed.

module FolderTemplates {
  import opened Strings
  import CaptureLite

  // ---------------------------------------------------------------------
  // Directory listings and name order
  // ---------------------------------------------------------------------

  /** An entry of a directory listing, with the listing of a sub-directory. */
  datatype Entry = File(name: string) | Dir(name: string, children: seq<Entry>)

  /** The entry matches the glob `*.txt` (files and directories alike). */
  predicate IsTxt(e: Entry)
  {
    EndsWith(e.name, ".txt")
  }

  predicate HasTxt(children: seq<Entry>)
  {
    exists e | e in children :: IsTxt(e)
  }

  /** A template directory: a directory with at least one `*.txt` entry. */
  predicate IsTemplateDir(e: Entry)
  {
    e.Dir? && HasTxt(e.children)
  }

  /** Python's string order: code points compared left to right, a proper
      prefix first. */
  predicate StrLe(a: string, b: string)
    decreases |a|
  {
    a == [] || (b != [] && (a[0] < b[0] || (a[0] == b[0] && StrLe(a[1..], b[1..]))))
  }

  lemma {:induction false} StrLeTotal(a: string, b: string)
    ensures StrLe(a, b) || StrLe(b, a)
    decreases |a|
  {
    if a != [] && b != [] && a[0] == b[0] {
      StrLeTotal(a[1..], b[1..]);
    }
  }

  lemma {:induction false} StrLeAntisymmetric(a: string, b: string)
    requires StrLe(a, b) && StrLe(b, a)
    ensures a == b
    decreases |a|
  {
    if a != [] && b != [] {
      StrLeAntisymmetric(a[1..], b[1..]);
      assert a == [a[0]] + a[1..] && b == [b[0]] + b[1..];
    }
  }

  /** Neighbours are in order under `key`. */
  predicate SortedBy<T>(xs: seq<T>, key: T -> string)
  {
    forall i :: 0 < i < |xs| ==> StrLe(key(xs[i - 1]), key(xs[i]))
  }

  /** `x` placed before the first element it does not follow. */
  function Insert<T>(x: T, xs: seq<T>, key: T -> string): (r: seq<T>)
    ensures multiset(r) == multiset(xs) + multiset{x}
    ensures |r| == |xs| + 1
    ensures r[0] == x || (xs != [] && r[0] == xs[0])
  {
    if xs == [] || StrLe(key(x), key(xs[0])) then
      [x] + xs
    else
      assert xs == [xs[0]] + xs[1..];
      [xs[0]] + Insert(x, xs[1..], key)
  }

  /** Inserting into an ordered sequence keeps it ordered. */
  lemma {:induction false} InsertSorted<T>(x: T, xs: seq<T>, key: T -> string)
    requires SortedBy(xs, key)
    ensures SortedBy(Insert(x, xs, key), key)
  {
    if xs != [] && !StrLe(key(x), key(xs[0])) {
      var rest := Insert(x, xs[1..], key);
      InsertSorted(x, xs[1..], key);
      StrLeTotal(key(x), key(xs[0]));
      var r := [xs[0]] + rest;
      forall i | 0 < i < |r|
        ensures StrLe(key(r[i - 1]), key(r[i]))
      {
        if i > 1 {
          assert r[i - 1] == rest[i - 2] && r[i] == rest[i - 1];
        }
      }
    }
  }

  /** Insertion sort: Python's `sorted` for distinct keys. */
  function SortBy<T>(xs: seq<T>, key: T -> string): (r: seq<T>)
    ensures multiset(r) == multiset(xs)
    ensures SortedBy(r, key)
  {
    if xs == [] then []
    else
      assert xs == [xs[0]] + xs[1..];
      var sorted := SortBy(xs[1..], key);
      InsertSorted(xs[0], sorted, key);
      Insert(xs[0], sorted, key)
  }

  // ---------------------------------------------------------------------
  // Scanning the base directories
  // ---------------------------------------------------------------------

  /** A template found while scanning: its name and the base it came from. */
  datatype Template = Template(name: string, base: nat)

  function Names(ts: seq<Template>): set<string>
  {
    set t | t in ts :: t.name
  }

  predicate NoDupNames(ts: seq<Template>)
  {
    forall i, j :: 0 <= i < j < |ts| ==> ts[i].name != ts[j].name
  }

  /** The template names a category directory's listing offers. */
  function Offered(children: seq<Entry>): set<string>
  {
    if children == [] then {}
    else
      var e := children[|children| - 1];
      Offered(children[..|children| - 1]) + (if IsTemplateDir(e) then {e.name} else {})
  }

  lemma {:induction false} OfferedMeans(children: seq<Entry>, t: string)
    ensures t in Offered(children) <==> exists e | e in children :: IsTemplateDir(e) && e.name == t
  {
    if children != [] {
      var init := children[..|children| - 1];
      OfferedMeans(init, t);
      assert children == init + [children[|children| - 1]];
    }
  }

  lemma NamesAppend(ts: seq<Template>, t: Template)
    ensures Names(ts + [t]) == Names(ts) + {t.name}
  {
    assert forall u :: u in ts + [t] <==> u in ts || u == t;
  }

  /** `after` is `before` followed by templates from `base` whose names
      `before` lacked, and it gained exactly the names `offered`. */
  predicate Grows(before: seq<Template>, after: seq<Template>, offered: set<string>, base: nat)
  {
    && |before| <= |after|
    && after[..|before|] == before
    && Names(after) == Names(before) + offered
    && (forall i :: |before| <= i < |after| ==>
          after[i].base == base && after[i].name !in Names(before))
  }

  lemma GrowsTrans(a: seq<Template>, b: seq<Template>, c: seq<Template>, o1: set<string>, o2: set<string>, base: nat)
    requires Grows(a, b, o1, base) && Grows(b, c, o2, base)
    ensures Grows(a, c, o1 + o2, base)
  {
    assert c[..|a|] == c[..|b|][..|a|];
    forall i | |a| <= i < |c|
      ensures c[i].base == base && c[i].name !in Names(a)
    {
      if i < |b| {
        assert c[i] == c[..|b|][i];
      }
    }
  }

  /** The inner loop of one category directory: each template directory
      whose name the category does not have yet is appended. */
  function AddTemplates(ts: seq<Template>, children: seq<Entry>, base: nat): (r: seq<Template>)
    ensures Grows(ts, r, Offered(children), base)
    ensures NoDupNames(ts) ==> NoDupNames(r)
  {
    if children == [] then ts
    else
      var prev := AddTemplates(ts, children[..|children| - 1], base);
      var e := children[|children| - 1];
      var offered := if IsTemplateDir(e) then {e.name} else {};
      if IsTemplateDir(e) && e.name !in Names(prev) then
        var t := Template(e.name, base);
        GrowsByOne(prev, t);
        GrowsTrans(ts, prev, prev + [t], Offered(children[..|children| - 1]), offered, base);
        prev + [t]
      else
        GrowsByNone(prev, offered, base);
        GrowsTrans(ts, prev, prev, Offered(children[..|children| - 1]), offered, base);
        prev
  }

  /** Appending a template with a new name. */
  lemma GrowsByOne(ts: seq<Template>, t: Template)
    requires t.name !in Names(ts)
    ensures Grows(ts, ts + [t], {t.name}, t.base)
    ensures NoDupNames(ts) ==> NoDupNames(ts + [t])
  {
    NamesAppend(ts, t);
    assert (ts + [t])[..|ts|] == ts;
    assert forall i :: 0 <= i < |ts| ==> ts[i].name in Names(ts);
  }

  /** Names already present add nothing. */
  lemma GrowsByNone(ts: seq<Template>, offered: set<string>, base: nat)
    requires offered <= Names(ts)
    ensures Grows(ts, ts, offered, base)
  {
    assert ts[..|ts|] == ts;
  }

  /** What a scan has gathered: category names in first-seen order, and the
      templates of each category. */
  datatype Scan = Scan(order: seq<string>, cats: map<string, seq<Template>>)

  predicate WellFormed(s: Scan)
  {
    && s.cats.Keys == (set c | c in s.order)
    && (forall i, j :: 0 <= i < j < |s.order| ==> s.order[i] != s.order[j])
    && (forall c | c in s.cats :: NoDupNames(s.cats[c]))
  }

  /** The names of the directories among the first `k` entries. */
  function DirNames(listing: seq<Entry>, k: nat): set<string>
    requires k <= |listing|
  {
    if k == 0 then {}
    else DirNames(listing, k - 1) + (if listing[k - 1].Dir? then {listing[k - 1].name} else {})
  }

  /** The template names the first `k` entries offer in category `c`. */
  function OfferedIn(listing: seq<Entry>, k: nat, c: string): set<string>
    requires k <= |listing|
  {
    if k == 0 then {}
    else
      var e := listing[k - 1];
      OfferedIn(listing, k - 1, c) + (if e.Dir? && e.name == c then Offered(e.children) else {})
  }

  /** A listing offers templates in `c` only when it has a directory `c`. */
  lemma {:induction false} OfferedInEmpty(listing: seq<Entry>, k: nat, c: string)
    requires k <= |listing| && c !in DirNames(listing, k)
    ensures OfferedIn(listing, k, c) == {}
  {
    if k > 0 {
      OfferedInEmpty(listing, k - 1, c);
    }
  }

  /** The templates a scan holds for `c`, none when it has not seen `c`. */
  function Held(s: Scan, c: string): seq<Template>
  {
    if c in s.cats then s.cats[c] else []
  }

  /** One step of the outer loop over a base's listing: a directory is a
      category, registered when new, and its templates are added. */
  function ScanEntry(s: Scan, e: Entry, base: nat): Scan
  {
    if !e.Dir? then s
    else
      var order := if e.name in s.cats then s.order else s.order + [e.name];
      Scan(order, s.cats[e.name := AddTemplates(Held(s, e.name), e.children, base)])
  }

  lemma ScanEntryWellFormed(s: Scan, e: Entry, base: nat)
    requires WellFormed(s)
    ensures WellFormed(ScanEntry(s, e, base))
  {
    if e.Dir? {
      assert NoDupNames(Held(s, e.name));
      if e.name !in s.cats {
        var order := s.order + [e.name];
        assert e.name !in s.order;
        assert (set c | c in order) == (set c | c in s.order) + {e.name};
      }
    }
  }

  /** Every category of `r` grew from what `s` held by the names the first
      `k` entries offer. */
  predicate Extends(s: Scan, r: Scan, listing: seq<Entry>, k: nat, base: nat)
    requires k <= |listing|
  {
    forall c | c in r.cats :: Grows(Held(s, c), r.cats[c], OfferedIn(listing, k, c), base)
  }

  /** The outer loop over the first `k` entries of one base's listing. */
  function ScanListing(s: Scan, listing: seq<Entry>, k: nat, base: nat): (r: Scan)
    requires k <= |listing|
    ensures r.cats.Keys == s.cats.Keys + DirNames(listing, k)
    ensures WellFormed(s) ==> WellFormed(r)
    ensures Extends(s, r, listing, k, base)
  {
    if k == 0 then s
    else
      var prev := ScanListing(s, listing, k - 1, base);
      ScanListingStep(s, prev, listing, k, base);
      ScanEntry(prev, listing[k - 1], base)
  }

  lemma ScanListingStep(s: Scan, prev: Scan, listing: seq<Entry>, k: nat, base: nat)
    requires 0 < k <= |listing|
    requires prev.cats.Keys == s.cats.Keys + DirNames(listing, k - 1)
    requires WellFormed(s) ==> WellFormed(prev)
    requires Extends(s, prev, listing, k - 1, base)
    ensures var r := ScanEntry(prev, listing[k - 1], base);
      && r.cats.Keys == s.cats.Keys + DirNames(listing, k)
      && (WellFormed(s) ==> WellFormed(r))
      && Extends(s, r, listing, k, base)
  {
    var e := listing[k - 1];
    var r := ScanEntry(prev, e, base);
    if WellFormed(s) {
      ScanEntryWellFormed(prev, e, base);
    }
    ScanEntryKeys(prev, e, base);
    assert DirNames(listing, k) == DirNames(listing, k - 1) + (if e.Dir? then {e.name} else {});
    forall c | c in r.cats
      ensures Grows(Held(s, c), r.cats[c], OfferedIn(listing, k, c), base)
    {
      if e.Dir? && c == e.name {
        ScanListingCategory(s, prev, listing, k, base);
      } else {
        ScanListingOther(s, prev, listing, k, base, c);
      }
    }
  }

  /** A directory entry registers its name as a category. */
  lemma ScanEntryKeys(s: Scan, e: Entry, base: nat)
    ensures ScanEntry(s, e, base).cats.Keys == s.cats.Keys + (if e.Dir? then {e.name} else {})
  {
  }

  /** A category the `k`-th entry does not name, in `ScanListingStep`. */
  lemma ScanListingOther(s: Scan, prev: Scan, listing: seq<Entry>, k: nat, base: nat, c: string)
    requires 0 < k <= |listing| && c in prev.cats
    requires !(listing[k - 1].Dir? && listing[k - 1].name == c)
    requires Extends(s, prev, listing, k - 1, base)
    ensures Grows(Held(s, c), ScanEntry(prev, listing[k - 1], base).cats[c], OfferedIn(listing, k, c), base)
  {
    assert ScanEntry(prev, listing[k - 1], base).cats[c] == prev.cats[c];
    assert OfferedIn(listing, k, c) == OfferedIn(listing, k - 1, c);
    assert Grows(Held(s, c), prev.cats[c], OfferedIn(listing, k - 1, c), base);
  }

  /** The category the `k`-th entry names, in `ScanListingStep`. */
  lemma ScanListingCategory(s: Scan, prev: Scan, listing: seq<Entry>, k: nat, base: nat)
    requires 0 < k <= |listing| && listing[k - 1].Dir?
    requires prev.cats.Keys == s.cats.Keys + DirNames(listing, k - 1)
    requires Extends(s, prev, listing, k - 1, base)
    ensures var e := listing[k - 1];
      Grows(Held(s, e.name), ScanEntry(prev, e, base).cats[e.name], OfferedIn(listing, k, e.name), base)
  {
    var e := listing[k - 1];
    var c := e.name;
    var before := OfferedIn(listing, k - 1, c);
    if c !in prev.cats {
      OfferedInEmpty(listing, k - 1, c);
      assert Grows(Held(s, c), Held(prev, c), before, base) by {
        assert Held(s, c) == [] && Held(prev, c) == [] && before == {};
      }
    } else {
      assert Grows(Held(s, c), Held(prev, c), before, base);
    }
    var added := AddTemplates(Held(prev, c), e.children, base);
    assert ScanEntry(prev, e, base).cats[c] == added;
    GrowsTrans(Held(s, c), Held(prev, c), added, before, Offered(e.children), base);
    assert OfferedIn(listing, k, c) == before + Offered(e.children);
  }

  // ---------------------------------------------------------------------
  // Both bases: the first base to offer a name wins
  // ---------------------------------------------------------------------

  /** The bases in scan order; `None` stands for a base that does not exist. */
  type Bases = seq<Option<seq<Entry>>>

  /** Base `i` exists and offers template `t` in category `c`. */
  predicate Provides(bases: Bases, i: int, c: string, t: string)
  {
    0 <= i < |bases| && bases[i].Some? && t in OfferedIn(bases[i].value, |bases[i].value|, c)
  }

  /** One of the first `k` bases exists and has a directory `c`. */
  predicate HasCategory(bases: Bases, k: nat, c: string)
  {
    exists i | 0 <= i < k && i < |bases| :: bases[i].Some? && c in DirNames(bases[i].value, |bases[i].value|)
  }

  /** `t` comes from the first base that offers its name in `c`. */
  predicate FirstProvider(bases: Bases, c: string, t: Template)
  {
    Provides(bases, t.base, c, t.name) && forall i | 0 <= i < t.base :: !Provides(bases, i, c, t.name)
  }

  /** What scanning the first `k` bases yields, stated without the loop. */
  ghost predicate ScannedTo(bases: Bases, k: nat, r: Scan)
  {
    && WellFormed(r)
    && (forall c :: c in r.cats <==> HasCategory(bases, k, c))
    && (forall c, t | c in r.cats :: t in Names(r.cats[c]) <==> exists i | 0 <= i < k :: Provides(bases, i, c, t))
    && (forall c | c in r.cats :: forall j | 0 <= j < |r.cats[c]| :: FirstProvider(bases, c, r.cats[c][j]))
  }

  /** The loop over the first `k` bases; a base that does not exist is
      skipped. A template's `base` is its base's index. */
  function ScanBases(bases: Bases, k: nat): (r: Scan)
    requires k <= |bases|
    ensures ScannedTo(bases, k, r)
  {
    if k == 0 then Scan([], map[])
    else
      var prev := ScanBases(bases, k - 1);
      if bases[k - 1].None? then
        SkipMissing(bases, k, prev);
        prev
      else
        var listing := bases[k - 1].value;
        var r := ScanListing(prev, listing, |listing|, k - 1);
        ScanBaseKeys(bases, k, prev, r);
        ScanBaseNames(bases, k, prev, r);
        ScanBaseFirst(bases, k, prev, r);
        r
  }

  lemma SkipMissing(bases: Bases, k: nat, prev: Scan)
    requires 0 < k <= |bases| && bases[k - 1].None?
    requires ScannedTo(bases, k - 1, prev)
    ensures ScannedTo(bases, k, prev)
  {
    forall c ensures HasCategory(bases, k, c) ==> HasCategory(bases, k - 1, c) {
    }
  }

  lemma ScanBaseKeys(bases: Bases, k: nat, prev: Scan, r: Scan)
    requires 0 < k <= |bases| && bases[k - 1].Some?
    requires ScannedTo(bases, k - 1, prev)
    requires var listing := bases[k - 1].value;
      r.cats.Keys == prev.cats.Keys + DirNames(listing, |listing|) && WellFormed(r)
    ensures forall c :: c in r.cats <==> HasCategory(bases, k, c)
  {
    forall c ensures c in r.cats <==> HasCategory(bases, k, c) {
      if HasCategory(bases, k, c) && c !in prev.cats {
        assert !HasCategory(bases, k - 1, c);
      }
    }
  }

  lemma ScanBaseNames(bases: Bases, k: nat, prev: Scan, r: Scan)
    requires 0 < k <= |bases| && bases[k - 1].Some?
    requires ScannedTo(bases, k - 1, prev)
    requires var listing := bases[k - 1].value;
      r.cats.Keys == prev.cats.Keys + DirNames(listing, |listing|) && Extends(prev, r, listing, |listing|, k - 1)
    ensures forall c, t | c in r.cats :: t in Names(r.cats[c]) <==> exists i | 0 <= i < k :: Provides(bases, i, c, t)
  {
    var listing := bases[k - 1].value;
    forall c, t | c in r.cats
      ensures t in Names(r.cats[c]) <==> exists i | 0 <= i < k :: Provides(bases, i, c, t)
    {
      ScanBaseName(bases, k, Held(prev, c), r.cats[c], c, t, c in prev.cats);
    }
  }

  /** `ScanBaseNames` for one category and one name. */
  lemma ScanBaseName(bases: Bases, k: nat, held: seq<Template>, now: seq<Template>, c: string, t: string, seen: bool)
    requires 0 < k <= |bases| && bases[k - 1].Some?
    requires Grows(held, now, OfferedIn(bases[k - 1].value, |bases[k - 1].value|, c), k - 1)
    requires seen ==> (t in Names(held) <==> exists i | 0 <= i < k - 1 :: Provides(bases, i, c, t))
    requires !seen ==> held == [] && !HasCategory(bases, k - 1, c)
    ensures t in Names(now) <==> exists i | 0 <= i < k :: Provides(bases, i, c, t)
  {
    if t in Names(now) && !Provides(bases, k - 1, c, t) {
      assert t in Names(held);
    }
    if !seen {
      forall i | 0 <= i < k - 1
        ensures !Provides(bases, i, c, t)
      {
        if bases[i].Some? {
          var l := bases[i].value;
          assert c !in DirNames(l, |l|);
          OfferedInEmpty(l, |l|, c);
        }
      }
    }
  }

  lemma ScanBaseFirst(bases: Bases, k: nat, prev: Scan, r: Scan)
    requires 0 < k <= |bases| && bases[k - 1].Some?
    requires ScannedTo(bases, k - 1, prev)
    requires var listing := bases[k - 1].value;
      r.cats.Keys == prev.cats.Keys + DirNames(listing, |listing|) && Extends(prev, r, listing, |listing|, k - 1)
    ensures forall c | c in r.cats :: forall j | 0 <= j < |r.cats[c]| :: FirstProvider(bases, c, r.cats[c][j])
  {
    var listing := bases[k - 1].value;
    forall c, j | c in r.cats && 0 <= j < |r.cats[c]|
      ensures FirstProvider(bases, c, r.cats[c][j])
    {
      var held := Held(prev, c);
      var t := r.cats[c][j];
      if j < |held| {
        assert t == r.cats[c][..|held|][j];
      } else {
        assert t.base == k - 1 && t.name !in Names(held);
        assert t.name in Names(r.cats[c]);
        forall i | 0 <= i < k - 1
          ensures !Provides(bases, i, c, t.name)
        {
          if bases[i].Some? {
            var l := bases[i].value;
            if c !in DirNames(l, |l|) {
              OfferedInEmpty(l, |l|, c);
            }
          }
        }
      }
    }
  }

  /** Reading the recursive definitions back as plain membership. */
  lemma {:induction false} DirNamesMeans(listing: seq<Entry>, k: nat, c: string)
    requires k <= |listing|
    ensures c in DirNames(listing, k) <==> exists j | 0 <= j < k :: listing[j].Dir? && listing[j].name == c
  {
    if k > 0 {
      DirNamesMeans(listing, k - 1, c);
    }
  }

  lemma {:induction false} OfferedInMeans(listing: seq<Entry>, k: nat, c: string, t: string)
    requires k <= |listing|
    ensures t in OfferedIn(listing, k, c) <==>
      exists j | 0 <= j < k :: listing[j].Dir? && listing[j].name == c && t in Offered(listing[j].children)
  {
    if k > 0 {
      OfferedInMeans(listing, k - 1, c, t);
    }
  }

  // ---------------------------------------------------------------------
  // The tree the dialog shows
  // ---------------------------------------------------------------------

  /** A category row and its template rows, in the order shown. */
  datatype Row = Row(category: string, templates: seq<Template>)

  function CategoryKey(c: string): string { c }

  function TemplateKey(t: Template): string { t.name }

  /** The rows for a finished scan: categories by name, and inside each
      the templates by name. An empty result shows the placeholder row
      "No folder templates found". */
  function Rows(s: Scan): (r: seq<Row>)
    requires WellFormed(s)
    ensures |r| == |s.order|
  {
    var names := SortBy(s.order, CategoryKey);
    assert forall i | 0 <= i < |names| :: names[i] in s.cats by {
      forall i | 0 <= i < |names|
        ensures names[i] in s.cats
      {
        assert names[i] in multiset(s.order);
      }
    }
    RowsOf(names, s.cats)
  }

  /** One row per category name, its templates sorted by name. */
  function RowsOf(names: seq<string>, cats: map<string, seq<Template>>): (r: seq<Row>)
    requires forall i | 0 <= i < |names| :: names[i] in cats
    ensures |r| == |names|
    ensures forall i | 0 <= i < |names| ::
      r[i].category == names[i] && r[i].templates == SortBy(cats[names[i]], TemplateKey)
  {
    seq(|names|, i requires 0 <= i < |names| => Row(names[i], SortBy(cats[names[i]], TemplateKey)))
  }

  /** The rows for two bases scanned in the order given. */
  function LoadInOrder(first: Option<seq<Entry>>, second: Option<seq<Entry>>): seq<Row>
  {
    Rows(ScanBases([first, second], 2))
  }

  /** The dialog's `_load_templates`: the built-in base is scanned before
      the user's, so a template both have is listed from the built-in
      base. */
  function LoadTemplates(builtin: Option<seq<Entry>>, user: Option<seq<Entry>>): seq<Row>
  {
    LoadInOrder(builtin, user)
  }

  /** The loading the code's own comment describes, where a user template
      overrides a built-in one of the same name: the user base scanned
      first. */
  function LoadTemplatesUserFirst(builtin: Option<seq<Entry>>, user: Option<seq<Entry>>): seq<Row>
  {
    LoadInOrder(user, builtin)
  }

  /** Whether a listing has a template directory `t` under a category
      directory `c`. */
  predicate ListsTemplate(listing: seq<Entry>, c: string, t: string)
  {
    exists j | 0 <= j < |listing| :: listing[j].Dir? && listing[j].name == c &&
      exists e | e in listing[j].children :: IsTemplateDir(e) && e.name == t
  }

  predicate ListsCategory(listing: seq<Entry>, c: string)
  {
    exists j | 0 <= j < |listing| :: listing[j].Dir? && listing[j].name == c
  }

  predicate BaseListsTemplate(base: Option<seq<Entry>>, c: string, t: string)
  {
    base.Some? && ListsTemplate(base.value, c, t)
  }

  predicate BaseListsCategory(base: Option<seq<Entry>>, c: string)
  {
    base.Some? && ListsCategory(base.value, c)
  }

  lemma ProvidesMeans(bases: Bases, i: nat, c: string, t: string)
    requires i < |bases|
    ensures Provides(bases, i, c, t) <==> BaseListsTemplate(bases[i], c, t)
  {
    if bases[i].Some? {
      var l := bases[i].value;
      OfferedInMeans(l, |l|, c, t);
      if Provides(bases, i, c, t) {
        var j :| 0 <= j < |l| && l[j].Dir? && l[j].name == c && t in Offered(l[j].children);
        OfferedMeans(l[j].children, t);
      }
      if ListsTemplate(l, c, t) {
        var j :| 0 <= j < |l| && l[j].Dir? && l[j].name == c &&
          exists e | e in l[j].children :: IsTemplateDir(e) && e.name == t;
        OfferedMeans(l[j].children, t);
      }
    }
  }

  lemma HasCategoryMeans(bases: Bases, c: string)
    requires |bases| == 2
    ensures HasCategory(bases, 2, c) <==> BaseListsCategory(bases[0], c) || BaseListsCategory(bases[1], c)
  {
    if bases[0].Some? {
      DirNamesMeans(bases[0].value, |bases[0].value|, c);
    }
    if bases[1].Some? {
      DirNamesMeans(bases[1].value, |bases[1].value|, c);
    }
  }

  /** The category rows of a scan: in name order, one per category. */
  lemma RowsCategories(s: Scan, c: string)
    requires WellFormed(s)
    ensures var rows := Rows(s);
      && (forall i | 0 < i < |rows| :: StrLe(rows[i - 1].category, rows[i].category))
      && ((exists i | 0 <= i < |rows| :: rows[i].category == c) <==> c in s.cats)
      && (forall i, j | 0 <= i < j < |rows| :: rows[i].category != rows[j].category)
  {
    RowsSorted(s);
    RowsCover(s, c);
    RowsUnique(s);
  }

  lemma RowsSorted(s: Scan)
    requires WellFormed(s)
    ensures var rows := Rows(s);
      forall i | 0 < i < |rows| :: StrLe(rows[i - 1].category, rows[i].category)
  {
    var rows := Rows(s);
    var names := SortBy(s.order, CategoryKey);
    RowNames(s);
    forall i | 0 < i < |rows|
      ensures StrLe(rows[i - 1].category, rows[i].category)
    {
      assert CategoryKey(names[i - 1]) == rows[i - 1].category;
      assert CategoryKey(names[i]) == rows[i].category;
    }
  }

  lemma RowsCover(s: Scan, c: string)
    requires WellFormed(s)
    ensures var rows := Rows(s);
      (exists i | 0 <= i < |rows| :: rows[i].category == c) <==> c in s.cats
  {
    var names := SortBy(s.order, CategoryKey);
    RowsMembership(s, names, c);
    RowsOfCover(Rows(s), names, c);
  }

  /** Rows named after `names` contain a row `c` exactly when `names` has `c`. */
  lemma RowsOfCover(rows: seq<Row>, names: seq<string>, c: string)
    requires |rows| == |names| && forall i | 0 <= i < |names| :: rows[i].category == names[i]
    ensures (exists i | 0 <= i < |rows| :: rows[i].category == c) <==> (exists i | 0 <= i < |names| :: names[i] == c)
  {
    if exists i | 0 <= i < |rows| :: rows[i].category == c {
      var i :| 0 <= i < |rows| && rows[i].category == c;
      assert names[i] == c;
    }
  }

  lemma RowsUnique(s: Scan)
    requires WellFormed(s)
    ensures var rows := Rows(s);
      forall i, j | 0 <= i < j < |rows| :: rows[i].category != rows[j].category
  {
    var names := SortBy(s.order, CategoryKey);
    RowNames(s);
    RowsDistinct(s, names);
  }

  lemma RowNames(s: Scan)
    requires WellFormed(s)
    ensures var names := SortBy(s.order, CategoryKey);
      |Rows(s)| == |names| && forall i | 0 <= i < |names| :: Rows(s)[i].category == names[i]
  {
  }

  lemma RowsMembership(s: Scan, names: seq<string>, c: string)
    requires multiset(names) == multiset(s.order) && s.cats.Keys == (set c | c in s.order)
    ensures (exists i | 0 <= i < |names| :: names[i] == c) <==> c in s.cats
  {
    if c in s.cats {
      assert c in multiset(names);
    }
    if exists i | 0 <= i < |names| :: names[i] == c {
      var i :| 0 <= i < |names| && names[i] == c;
      assert names[i] in multiset(s.order);
    }
  }

  lemma RowsDistinct(s: Scan, names: seq<string>)
    requires multiset(names) == multiset(s.order)
    requires forall i, j :: 0 <= i < j < |s.order| ==> s.order[i] != s.order[j]
    ensures forall i, j | 0 <= i < j < |names| :: names[i] != names[j]
  {
    forall i, j | 0 <= i < j < |names|
      ensures names[i] != names[j]
    {
      if names[i] == names[j] {
        TwiceCounts(names, i, j);
        NoDupCount(s.order, names[i]);
      }
    }
  }

  /** The template rows under one category row: the scan's templates for
      that category, by name, each name once. */
  lemma RowsTemplates(s: Scan, i: nat)
    requires WellFormed(s) && i < |Rows(s)|
    ensures var row := Rows(s)[i];
      && row.category in s.cats
      && multiset(row.templates) == multiset(s.cats[row.category])
      && SortedBy(row.templates, TemplateKey)
      && NoDupNames(row.templates)
  {
    var row := Rows(s)[i];
    var names := SortBy(s.order, CategoryKey);
    assert names[i] in multiset(s.order);
    SortedNoDup(s.cats[row.category], row.templates);
  }

  /** Categories: one row per category directory found in either base,
      rows in name order, each category exactly once. */
  lemma LoadListsCategories(first: Option<seq<Entry>>, second: Option<seq<Entry>>, c: string)
    ensures var rows := LoadInOrder(first, second);
      && (forall i | 0 < i < |rows| :: StrLe(rows[i - 1].category, rows[i].category))
      && ((exists i | 0 <= i < |rows| :: rows[i].category == c) <==>
            BaseListsCategory(first, c) || BaseListsCategory(second, c))
      && (forall i, j | 0 <= i < j < |rows| :: rows[i].category != rows[j].category)
  {
    var bases := [first, second];
    var s := ScanBases(bases, 2);
    RowsCategories(s, c);
    HasCategoryMeans(bases, c);
  }

  /** A value at two positions occurs at least twice. */
  lemma {:induction false} TwiceCounts<T>(xs: seq<T>, i: nat, j: nat)
    requires i < j < |xs| && xs[i] == xs[j]
    ensures multiset(xs)[xs[i]] >= 2
  {
    var x := xs[i];
    assert xs == xs[..i] + [x] + xs[i + 1..j] + [x] + xs[j + 1..];
  }

  /** A value of a sequence without repeats occurs at most once. */
  lemma {:induction false} NoDupCount<T>(xs: seq<T>, x: T)
    requires forall i, j :: 0 <= i < j < |xs| ==> xs[i] != xs[j]
    ensures multiset(xs)[x] <= 1
  {
    if xs != [] {
      var rest := xs[1..];
      assert xs == [xs[0]] + rest;
      NoDupCount(rest, x);
      if xs[0] == x {
        assert x !in rest by {
          forall k | 0 <= k < |rest|
            ensures rest[k] != x
          {
            assert rest[k] == xs[k + 1];
          }
        }
      }
    }
  }

  /** Templates: under each category, a template is listed exactly when a
      base has it, in name order, each name once, and the listed one comes
      from the first base (in scan order) that has it. */
  lemma LoadListsTemplates(first: Option<seq<Entry>>, second: Option<seq<Entry>>, i: nat, name: string)
    requires i < |LoadInOrder(first, second)|
    ensures var row := LoadInOrder(first, second)[i];
      && SortedBy(row.templates, TemplateKey)
      && NoDupNames(row.templates)
      && ((exists k | 0 <= k < |row.templates| :: row.templates[k].name == name) <==>
            BaseListsTemplate(first, row.category, name) || BaseListsTemplate(second, row.category, name))
      && (forall k | 0 <= k < |row.templates| ::
            var t := row.templates[k];
            && (t.base == 0 ==> BaseListsTemplate(first, row.category, t.name))
            && (t.base == 1 ==> BaseListsTemplate(second, row.category, t.name) && !BaseListsTemplate(first, row.category, t.name))
            && t.base < 2)
  {
    var bases := [first, second];
    var s := ScanBases(bases, 2);
    RowsTemplates(s, i);
    var row := Rows(s)[i];
    var c := row.category;
    var held := s.cats[c];
    ScannedNames(bases, s, c, name);
    ProvidesMeans(bases, 0, c, name);
    ProvidesMeans(bases, 1, c, name);
    TemplateNamesListed(held, row.templates, name);
    forall k | 0 <= k < |row.templates|
      ensures var t := row.templates[k];
        && (t.base == 0 ==> BaseListsTemplate(first, c, t.name))
        && (t.base == 1 ==> BaseListsTemplate(second, c, t.name) && !BaseListsTemplate(first, c, t.name))
        && t.base < 2
    {
      var t := row.templates[k];
      assert t in multiset(held);
      ScannedFirst(bases, s, c, t);
      FirstOfTwo(first, second, c, t);
    }
  }

  /** After both bases, a category holds the names either base provides. */
  lemma ScannedNames(bases: Bases, s: Scan, c: string, name: string)
    requires |bases| == 2 && ScannedTo(bases, 2, s) && c in s.cats
    ensures name in Names(s.cats[c]) <==> Provides(bases, 0, c, name) || Provides(bases, 1, c, name)
  {
    assert name in Names(s.cats[c]) <==> exists i | 0 <= i < 2 :: Provides(bases, i, c, name);
  }

  lemma ScannedFirst(bases: Bases, s: Scan, c: string, t: Template)
    requires |bases| == 2 && ScannedTo(bases, 2, s)
    requires c in s.cats && t in s.cats[c]
    ensures FirstProvider(bases, c, t)
  {
    var j :| 0 <= j < |s.cats[c]| && s.cats[c][j] == t;
  }

  /** With two bases, the first provider is the first base whenever it has
      the name. */
  lemma FirstOfTwo(first: Option<seq<Entry>>, second: Option<seq<Entry>>, c: string, t: Template)
    requires FirstProvider([first, second], c, t)
    ensures t.base < 2
    ensures t.base == 0 ==> BaseListsTemplate(first, c, t.name)
    ensures t.base == 1 ==> BaseListsTemplate(second, c, t.name) && !BaseListsTemplate(first, c, t.name)
  {
    ProvidesMeans([first, second], 0, c, t.name);
    ProvidesMeans([first, second], 1, c, t.name);
  }

  /** A permutation lists the same names. */
  lemma TemplateNamesListed(held: seq<Template>, shown: seq<Template>, name: string)
    requires multiset(shown) == multiset(held)
    ensures (exists k | 0 <= k < |shown| :: shown[k].name == name) <==> name in Names(held)
  {
    if name in Names(held) {
      var t :| t in held && t.name == name;
      assert t in multiset(shown);
    }
    if exists k | 0 <= k < |shown| :: shown[k].name == name {
      var k :| 0 <= k < |shown| && shown[k].name == name;
      assert shown[k] in multiset(held);
    }
  }

  /** Sorting keeps names distinct. */
  lemma SortedNoDup(held: seq<Template>, sorted: seq<Template>)
    requires NoDupNames(held) && multiset(sorted) == multiset(held)
    ensures NoDupNames(sorted)
  {
    forall i, j | 0 <= i < j < |sorted|
      ensures sorted[i].name != sorted[j].name
    {
      if sorted[i].name == sorted[j].name {
        var a, b := sorted[i], sorted[j];
        assert a in multiset(held) && b in multiset(held);
        var p :| 0 <= p < |held| && held[p] == a;
        var q :| 0 <= q < |held| && held[q] == b;
        if a == b {
          TwiceCounts(sorted, i, j);
          NamesUnique(held, a);
        }
      }
    }
  }

  /** Without repeated names a template occurs at most once. */
  lemma NamesUnique(held: seq<Template>, a: Template)
    requires NoDupNames(held)
    ensures multiset(held)[a] <= 1
  {
    NoDupCount(held, a);
  }

  /** As written: a template name that both bases have under a category is
      listed from the built-in base; the user's copy is hidden. */
  lemma BuiltinShadowsUser(builtin: Option<seq<Entry>>, user: Option<seq<Entry>>)
    ensures var rows := LoadTemplates(builtin, user);
      forall i, k | 0 <= i < |rows| && 0 <= k < |rows[i].templates| ::
        BaseListsTemplate(builtin, rows[i].category, rows[i].templates[k].name) ==> rows[i].templates[k].base == 0
  {
    var rows := LoadTemplates(builtin, user);
    forall i, k | 0 <= i < |rows| && 0 <= k < |rows[i].templates|
      ensures BaseListsTemplate(builtin, rows[i].category, rows[i].templates[k].name) ==> rows[i].templates[k].base == 0
    {
      LoadListsTemplates(builtin, user, i, "");
    }
  }

  /** Corrected: scanning the user base first, a template the user has is
      always listed from the user base (index 0 of that scan), whether or
      not the built-in base has it too. */
  lemma UserOverridesBuiltin(builtin: Option<seq<Entry>>, user: Option<seq<Entry>>)
    ensures var rows := LoadTemplatesUserFirst(builtin, user);
      forall i, k | 0 <= i < |rows| && 0 <= k < |rows[i].templates| ::
        BaseListsTemplate(user, rows[i].category, rows[i].templates[k].name) ==> rows[i].templates[k].base == 0
  {
    var rows := LoadTemplatesUserFirst(builtin, user);
    forall i, k | 0 <= i < |rows| && 0 <= k < |rows[i].templates|
      ensures BaseListsTemplate(user, rows[i].category, rows[i].templates[k].name) ==> rows[i].templates[k].base == 0
    {
      LoadListsTemplates(user, builtin, i, "");
    }
  }

  // ---------------------------------------------------------------------
  // Tree items
  // ---------------------------------------------------------------------

  const FolderIcon := "\U{1F4C1} "
  const FileIcon := "\U{1F4C4} "
  const NoTemplates := "No folder templates found"

  /** Where a template row points: base, category and template name. */
  datatype TemplatePath = TemplatePath(base: nat, category: string, name: string)

  /** A tree item: its text and the path it carries, if any. */
  datatype Item = Item(text: string, data: Option<TemplatePath>)

  /** The item of the `k`-th template of a category: the folder icon and
      the template's name, carrying its path. */
  function TemplateItem(row: Row, k: nat): Item
    requires k < |row.templates|
  {
    Item(FolderIcon + row.templates[k].name,
         Some(TemplatePath(row.templates[k].base, row.category, row.templates[k].name)))
  }

  /** A category item, which carries no path, then its template items. */
  function CategoryItems(row: Row): (r: seq<Item>)
    ensures |r| == |row.templates| + 1
    ensures r[0] == Item(row.category, None)
    ensures forall k | 0 <= k < |row.templates| :: r[k + 1] == TemplateItem(row, k)
    ensures forall k | 0 <= k < |row.templates| ::
      r[k + 1].data == Some(TemplatePath(row.templates[k].base, row.category, row.templates[k].name))
  {
    [Item(row.category, None)] +
      seq(|row.templates|, k requires 0 <= k < |row.templates| => TemplateItem(row, k))
  }

  function AllItems(rows: seq<Row>): seq<Item>
  {
    if rows == [] then [] else CategoryItems(rows[0]) + AllItems(rows[1..])
  }

  /** Every category and every template listed under it has its item. */
  lemma {:induction false} AllItemsListEverything(rows: seq<Row>)
    ensures forall i | 0 <= i < |rows| :: Item(rows[i].category, None) in AllItems(rows)
    ensures forall i, k | 0 <= i < |rows| && 0 <= k < |rows[i].templates| ::
      TemplateItem(rows[i], k) in AllItems(rows)
  {
    if rows != [] {
      AllItemsListEverything(rows[1..]);
      var head := CategoryItems(rows[0]);
      assert AllItems(rows) == head + AllItems(rows[1..]);
      assert head[0] in head;
      forall k | 0 <= k < |rows[0].templates|
        ensures TemplateItem(rows[0], k) in AllItems(rows)
      {
        assert head[k + 1] in head;
      }
      forall i | 1 <= i < |rows|
        ensures Item(rows[i].category, None) in AllItems(rows)
        ensures forall k | 0 <= k < |rows[i].templates| :: TemplateItem(rows[i], k) in AllItems(rows)
      {
        assert rows[i] == rows[1..][i - 1];
      }
    }
  }

  /** The tree's items, in display order, or the placeholder alone. */
  function TreeItems(rows: seq<Row>): (r: seq<Item>)
    ensures rows == [] ==> r == [Item(NoTemplates, None)]
    ensures forall i | 0 <= i < |rows| :: Item(rows[i].category, None) in r
    ensures forall i, k | 0 <= i < |rows| && 0 <= k < |rows[i].templates| :: TemplateItem(rows[i], k) in r
  {
    AllItemsListEverything(rows);
    if rows == [] then [Item(NoTemplates, None)] else AllItems(rows)
  }

  /** An item carries a path exactly when it is a template row: its text is
      the folder icon and the template's name, and the path names a
      template listed under that category. */
  lemma {:induction false} ItemsCarryListedPaths(rows: seq<Row>, it: Item)
    requires it in AllItems(rows)
    ensures it.data.None? ==> exists i | 0 <= i < |rows| :: it.text == rows[i].category
    ensures it.data.Some? ==>
      && it.text == FolderIcon + it.data.value.name
      && exists i | 0 <= i < |rows| :: rows[i].category == it.data.value.category &&
           Template(it.data.value.name, it.data.value.base) in rows[i].templates
  {
    var head := CategoryItems(rows[0]);
    if it in head {
      var j :| 0 <= j < |head| && head[j] == it;
      if j > 0 {
        assert rows[0].templates[j - 1] in rows[0].templates;
      }
    } else {
      ItemsCarryListedPaths(rows[1..], it);
      if it.data.None? {
        var i :| 0 <= i < |rows[1..]| && it.text == rows[1..][i].category;
        assert it.text == rows[i + 1].category;
      } else {
        var i :| 0 <= i < |rows[1..]| && rows[1..][i].category == it.data.value.category &&
          Template(it.data.value.name, it.data.value.base) in rows[1..][i].templates;
        assert rows[1..][i] == rows[i + 1];
      }
    }
  }

  // ---------------------------------------------------------------------
  // Selection, the OK button and accepting
  // ---------------------------------------------------------------------

  /** The dialog's state: the chosen template, the typed name, the name
      field's placeholder, the preview list and the accepted name. */
  datatype Dialog = Dialog(
    selected: Option<TemplatePath>,
    nameText: string,
    placeholder: string,
    preview: seq<string>,
    folderName: string)

  /** How a preview line shows a `*.txt` entry: its stem and ".txt". */
  function PreviewLine(name: string): string
  {
    FileIcon + CaptureLite.Stem(name) + ".txt"
  }

  function EntryKey(e: Entry): string { e.name }

  /** The `*.txt` entries of a listing, in listing order. */
  function TxtEntries(children: seq<Entry>): (r: seq<Entry>)
    ensures forall e :: e in r <==> e in children && IsTxt(e)
  {
    if children == [] then []
    else (if IsTxt(children[0]) then [children[0]] else []) + TxtEntries(children[1..])
  }

  /** The preview of a template directory: its `*.txt` entries by name. */
  function Preview(children: seq<Entry>): (r: seq<string>)
    ensures |r| == |TxtEntries(children)|
  {
    var files := SortBy(TxtEntries(children), EntryKey);
    assert |multiset(files)| == |multiset(TxtEntries(children))|;
    PreviewLines(files)
  }

  /** One preview line per file, in the order given. */
  function PreviewLines(files: seq<Entry>): (r: seq<string>)
    ensures |r| == |files| && forall k | 0 <= k < |files| :: r[k] == PreviewLine(files[k].name)
  {
    seq(|files|, k requires 0 <= k < |files| => PreviewLine(files[k].name))
  }

  /** Preview lines are in name order, and each `*.txt` entry has one. */
  lemma PreviewListsTxt(children: seq<Entry>, e: Entry)
    requires e in children && IsTxt(e)
    ensures exists k | 0 <= k < |Preview(children)| :: Preview(children)[k] == PreviewLine(e.name)
    ensures var files := SortBy(TxtEntries(children), EntryKey);
      SortedBy(files, EntryKey) && forall k | 0 <= k < |files| :: Preview(children)[k] == PreviewLine(files[k].name)
  {
    var files := SortBy(TxtEntries(children), EntryKey);
    assert e in multiset(files);
    var k :| 0 <= k < |files| && files[k] == e;
    assert Preview(children) == PreviewLines(files);
  }

  /** A `*.txt` name with something before the suffix is shown as it is. */
  lemma PreviewShowsName(name: string)
    requires EndsWith(name, ".txt") && |name| > 4
    ensures PreviewLine(name) == FileIcon + name
  {
    var i := RFindChar(name, '.');
    assert name[|name| - 4] == '.';
    assert i == |name| - 4;
    assert CaptureLite.Suffix(name) == ".txt";
    assert CaptureLite.Stem(name) + ".txt" == name;
  }

  /** A file named just ".txt" has no suffix in `pathlib`'s sense, so its
      preview line repeats the extension. */
  lemma BareTxtShownTwice()
    ensures PreviewLine(".txt") == FileIcon + ".txt.txt"
  {
    var n := ".txt";
    assert RFindChar(n, '.') == 0 by {
      assert n[0] == '.' && n[1] != '.' && n[2] != '.' && n[3] != '.';
    }
  }

  /** `_on_selection_changed`: the first selected item decides. A category
      item (no path) or an empty selection clears the choice; a template
      item chooses it, fills the preview, and suggests a name in the
      placeholder when nothing is typed. */
  function OnSelectionChanged(d: Dialog, selection: seq<Item>, children: seq<Entry>): (r: Dialog)
    ensures r.nameText == d.nameText && r.folderName == d.folderName
    ensures selection == [] || selection[0].data.None? ==> r.selected.None? && r.preview == []
    ensures selection != [] && selection[0].data.Some? ==> r.selected == selection[0].data
    ensures selection != [] && selection[0].data.Some? ==> r.preview == Preview(children)
    ensures selection == [] || selection[0].data.None? || d.nameText != "" ==> r.placeholder == d.placeholder
  {
    if selection == [] || selection[0].data.None? then
      d.(selected := None, preview := [])
    else
      var p := selection[0].data.value;
      d.(selected := Some(p),
         preview := Preview(children),
         placeholder := if d.nameText == "" then "e.g., " + ReplaceChar(p.name, '-', " ") else d.placeholder)
  }

  /** The suggested name reads the template's name with dashes as spaces. */
  lemma PlaceholderSuggestsName(d: Dialog, selection: seq<Item>, children: seq<Entry>)
    requires selection != [] && selection[0].data.Some? && d.nameText == ""
    ensures var r := OnSelectionChanged(d, selection, children);
      var name := selection[0].data.value.name;
      && StartsWith(r.placeholder, "e.g., ")
      && |r.placeholder| == |name| + 6
      && forall k | 0 <= k < |name| ::
           r.placeholder[k + 6] == (if name[k] == '-' then ' ' else name[k])
  {
    var name := selection[0].data.value.name;
    ReplaceCharPointwise(name, '-', ' ');
  }

  /** `_update_ok_button`: a template is chosen and the name is not blank. */
  predicate OkEnabled(d: Dialog)
  {
    d.selected.Some? && Strip(d.nameText) != ""
  }

  /** `_on_accept`: with no template or a blank name nothing happens;
      otherwise the stripped name is kept and the dialog closes accepted. */
  function OnAccept(d: Dialog): (r: (Dialog, bool))
    ensures r.1 <==> OkEnabled(d)
    ensures !r.1 ==> r.0 == d
    ensures r.1 ==> r.0 == d.(folderName := Strip(d.nameText))
  {
    if d.selected.None? then (d, false)
    else
      var name := Strip(d.nameText);
      if name == "" then (d, false)
      else (d.(folderName := name), true)
  }

  /** An accepted folder name is neither empty nor padded, and typing it
      back in and accepting again keeps it. */
  lemma AcceptedNameIsClean(d: Dialog)
    requires OnAccept(d).1
    ensures var f := OnAccept(d).0.folderName;
      f != "" && !IsSpace(f[0]) && !IsSpace(f[|f| - 1]) &&
      OnAccept(OnAccept(d).0.(nameText := f)) == (OnAccept(d).0.(nameText := f), true)
  {
    StripSpec(d.nameText);
    StripIdempotent(d.nameText);
  }

  /** Choosing a category row turns the OK button off, whatever is typed;
      choosing a template with a non-blank name turns it on. */
  lemma SelectionDrivesOk(d: Dialog, selection: seq<Item>, children: seq<Entry>)
    ensures var r := OnSelectionChanged(d, selection, children);
      OkEnabled(r) <==> selection != [] && selection[0].data.Some? && !AllSpace(d.nameText)
  {
    StripSpec(d.nameText);
  }
}
