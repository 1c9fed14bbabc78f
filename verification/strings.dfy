/** Text helpers shared by every model in this project.

    Each function here is the behaviour of one Python `str` operation that the
    application relies on (`strip`, `lstrip`, `split`, `join`, `replace`,
    `find`, `in`, `lower`, `str(int)`, `int(digits)`), restricted to the
    characters the application handles: whitespace and letter case are the
    ASCII ones. */
module Strings {

  datatype Option<+T> = None | Some(value: T)

  /** A Python call that either returns a value or raises with a message. */
  datatype Result<+T> = Ok(value: T) | Err(message: string)

  /** Python truthiness of an `Optional[str]`: `None` and `""` are falsy. */
  predicate Truthy(s: Option<string>)
  {
    s.Some? && s.value != ""
  }

  /** Python's `a or b` on two optional strings. */
  function OrElse(a: Option<string>, b: Option<string>): (r: Option<string>)
    ensures Truthy(a) ==> r == a
    ensures !Truthy(a) ==> r == b
  {
    if Truthy(a) then a else b
  }

  /** `s or ""` for an optional string. */
  function OrEmpty(s: Option<string>): (r: string)
    ensures s.Some? ==> r == s.value
    ensures s.None? ==> r == ""
  {
    if s.Some? then s.value else ""
  }

  // ---------------------------------------------------------------------
  // Character classes

  /** `str.isspace` on the ASCII range (space, \t, \n, \v, \f, \r and the
      four separators \x1c..\x1f). */
  predicate IsSpace(c: char)
  {
    c == ' ' || c == '\t' || c == '\n' || c == '\r' || c == '\U{000B}' || c == '\U{000C}'
    || ('\U{001C}' <= c <= '\U{001F}')
  }

  predicate AllSpace(s: string)
  {
    forall i :: 0 <= i < |s| ==> IsSpace(s[i])
  }

  predicate IsDigit(c: char)
  {
    '0' <= c <= '9'
  }

  predicate IsUpper(c: char)
  {
    'A' <= c <= 'Z'
  }

  // ---------------------------------------------------------------------
  // Prefixes, suffixes, occurrences

  predicate StartsWith(s: string, p: string)
  {
    |p| <= |s| && s[..|p|] == p
  }

  predicate EndsWith(s: string, p: string)
  {
    |p| <= |s| && s[|s| - |p|..] == p
  }

  /** A concatenation starts with its left part and ends with its right. */
  lemma ConcatEnds(a: string, b: string)
    ensures StartsWith(a + b, a) && EndsWith(a + b, b)
  {
    assert (a + b)[..|a|] == a;
    assert (a + b)[|a + b| - |b|..] == b;
  }

  /** `pat` occurs in `s` at index `i`. */
  predicate OccursAt(s: string, pat: string, i: int)
  {
    0 <= i && i + |pat| <= |s| && s[i..i + |pat|] == pat
  }

  /** Python's `pat in s`. */
  predicate Contains(s: string, pat: string)
  {
    exists i | 0 <= i <= |s| - |pat| :: OccursAt(s, pat, i)
  }

  /** Python's `s.find(pat, start)`: the first occurrence at or after
      `start`, or -1. */
  function FindFrom(s: string, pat: string, start: nat): (r: int)
    ensures r == -1 || (start <= r && OccursAt(s, pat, r))
    ensures r == -1 ==> forall i :: start <= i ==> !OccursAt(s, pat, i)
    ensures r != -1 ==> forall i :: start <= i < r ==> !OccursAt(s, pat, i)
    decreases |s| - start
  {
    if start + |pat| > |s| then -1
    else if s[start..start + |pat|] == pat then start
    else FindFrom(s, pat, start + 1)
  }

  /** Python's `s.find(pat)`. */
  function Find(s: string, pat: string): (r: int)
    ensures r == -1 <==> !Contains(s, pat)
    ensures r != -1 ==> OccursAt(s, pat, r) && forall i :: 0 <= i < r ==> !OccursAt(s, pat, i)
  {
    FindFrom(s, pat, 0)
  }

  // ---------------------------------------------------------------------
  // Stripping

  /** `s.lstrip()`: drop leading whitespace. */
  function TrimLeft(s: string): (r: string)
    ensures |r| <= |s|
  {
    if s != "" && IsSpace(s[0]) then TrimLeft(s[1..]) else s
  }

  /** `s.rstrip()`: drop trailing whitespace. */
  function TrimRight(s: string): (r: string)
    ensures |r| <= |s|
  {
    if s != "" && IsSpace(s[|s| - 1]) then TrimRight(s[..|s| - 1]) else s
  }

  /** `s.strip()`. */
  function Strip(s: string): (r: string)
    ensures |r| <= |s|
  {
    TrimRight(TrimLeft(s))
  }

  /** `lstrip` removes exactly a whitespace prefix, up to the first
      non-space character. */
  lemma {:induction false} TrimLeftSpec(s: string)
    ensures var r := TrimLeft(s);
      r == s[|s| - |r|..] && AllSpace(s[..|s| - |r|]) && (r == "" || !IsSpace(r[0]))
  {
    if s != "" && IsSpace(s[0]) {
      TrimLeftSpec(s[1..]);
      var r := TrimLeft(s);
      assert s[..|s| - |r|] == [s[0]] + s[1..][..|s| - 1 - |r|];
    }
  }

  /** `rstrip` removes exactly a whitespace suffix, back to the last
      non-space character. */
  lemma {:induction false} TrimRightSpec(s: string)
    ensures var r := TrimRight(s);
      r == s[..|r|] && AllSpace(s[|r|..]) && (r == "" || !IsSpace(r[|r| - 1]))
  {
    if s != "" && IsSpace(s[|s| - 1]) {
      TrimRightSpec(s[..|s| - 1]);
      var r := TrimRight(s);
      assert s[|r|..] == s[..|s| - 1][|r|..] + [s[|s| - 1]];
    }
  }

  /** `strip` leaves no whitespace at either end, and empties exactly the
      all-whitespace strings. */
  lemma StripSpec(s: string)
    ensures var r := Strip(s);
      (r == "" || (!IsSpace(r[0]) && !IsSpace(r[|r| - 1])))
      && (r == "" <==> AllSpace(s))
  {
    var t := TrimLeft(s);
    var r := TrimRight(t);
    TrimLeftSpec(s);
    TrimRightSpec(t);
    if r == "" {
      assert t[|r|..] == t;
      assert s == s[..|s| - |t|] + t;
    } else {
      assert r[0] == t[0];
    }
  }

  /** Python `not s.strip()`: the string is empty or all whitespace (the
      two agree by the contract of `Strip`). */
  predicate IsBlank(s: string)
  {
    AllSpace(s)
  }

  /** `s.lstrip(c)` for a single character `c`. */
  function LStripChar(s: string, c: char): (r: string)
    ensures |r| <= |s| && r == s[|s| - |r|..]
    ensures forall i :: 0 <= i < |s| - |r| ==> s[i] == c
    ensures r == "" || r[0] != c
  {
    if s != "" && s[0] == c then LStripChar(s[1..], c) else s
  }

  /** `s.rstrip(c)` for a single character `c`. */
  function RStripChar(s: string, c: char): (r: string)
    ensures |r| <= |s| && r == s[..|r|]
    ensures forall i :: |r| <= i < |s| ==> s[i] == c
    ensures r == "" || r[|r| - 1] != c
  {
    if s != "" && s[|s| - 1] == c then RStripChar(s[..|s| - 1], c) else s
  }

  /** `s.strip(c)` for a single character `c`. */
  function StripChar(s: string, c: char): (r: string)
    ensures r == "" || (r[0] != c && r[|r| - 1] != c)
  {
    RStripChar(LStripChar(s, c), c)
  }

  // ---------------------------------------------------------------------
  // Splitting and joining

  /** `s.split(sep)` for a single-character separator: never empty, and no
      piece contains the separator. */
  function Split(s: string, sep: char): (r: seq<string>)
    ensures |r| >= 1
    ensures forall i :: 0 <= i < |r| ==> sep !in r[i]
  {
    if s == "" then [""]
    else
      var rest := Split(s[1..], sep);
      if s[0] == sep then [""] + rest
      else [[s[0]] + rest[0]] + rest[1..]
  }

  /** `sep.join(parts)`. */
  function Join(parts: seq<string>, sep: string): string
  {
    if |parts| == 0 then ""
    else if |parts| == 1 then parts[0]
    else parts[0] + sep + Join(parts[1..], sep)
  }

  /** Joining the pieces of a split gives back the string. */
  lemma {:induction false} JoinSplit(s: string, sep: char)
    ensures Join(Split(s, sep), [sep]) == s
  {
    if s != "" {
      var rest := Split(s[1..], sep);
      JoinSplit(s[1..], sep);
      if s[0] == sep {
        JoinCons("", rest, [sep]);
      } else {
        JoinExtendHead(s[0], rest, [sep]);
      }
      assert s == [s[0]] + s[1..];
    }
  }

  lemma JoinCons(x: string, r: seq<string>, sep: string)
    requires |r| >= 1
    ensures Join([x] + r, sep) == x + sep + Join(r, sep)
  {
    assert ([x] + r)[1..] == r;
  }

  /** Growing the first piece by a character grows the join the same way. */
  lemma JoinExtendHead(c: char, rest: seq<string>, sep: string)
    requires |rest| >= 1
    ensures Join([[c] + rest[0]] + rest[1..], sep) == [c] + Join(rest, sep)
  {
    if |rest| > 1 {
      JoinCons([c] + rest[0], rest[1..], sep);
      JoinCons(rest[0], rest[1..], sep);
      assert rest == [rest[0]] + rest[1..];
    }
  }

  /** Splitting a join of separator-free pieces gives back the pieces. */
  lemma {:induction false} SplitJoin(parts: seq<string>, sep: char)
    requires |parts| >= 1
    requires forall i :: 0 <= i < |parts| ==> sep !in parts[i]
    ensures Split(Join(parts, [sep]), sep) == parts
    decreases |parts|, |parts[0]|
  {
    if |parts| == 1 {
      SplitNoSep(parts[0], sep);
    } else if parts[0] == "" {
      var tail := parts[1..];
      SplitJoin(tail, sep);
      assert parts == [""] + tail;
      JoinCons("", tail, [sep]);
      var s := Join(parts, [sep]);
      assert s[1..] == Join(tail, [sep]);
    } else {
      var c := parts[0][0];
      var shorter := [parts[0][1..]] + parts[1..];
      assert forall i :: 0 <= i < |shorter| ==> sep !in shorter[i] by {
        forall i | 0 <= i < |shorter| ensures sep !in shorter[i] {
          if i == 0 {
            assert parts[0] == [c] + parts[0][1..];
          } else {
            assert shorter[i] == parts[i];
          }
        }
      }
      SplitJoin(shorter, sep);
      assert [c] + shorter[0] == parts[0];
      assert shorter[1..] == parts[1..];
      assert parts == [parts[0]] + parts[1..];
      JoinExtendHead(c, shorter, [sep]);
      assert c != sep by {
        assert parts[0][0] in parts[0];
      }
      var s := Join(parts, [sep]);
      assert s[1..] == Join(shorter, [sep]);
    }
  }

  lemma {:induction false} SplitNoSep(s: string, sep: char)
    requires sep !in s
    ensures Split(s, sep) == [s]
  {
    if s != "" {
      assert sep !in s[1..] by {
        forall i | 0 <= i < |s[1..]| ensures s[1..][i] != sep {
          assert s[1..][i] == s[i + 1];
        }
      }
      SplitNoSep(s[1..], sep);
      assert [s[0]] + s[1..] == s;
    }
  }

  /** Python `str.splitlines()` restricted to "\n" line ends: no trailing
      empty line for a final newline, and no lines at all for "". */
  function SplitLines(s: string): (r: seq<string>)
    ensures r == [] <==> s == ""
    ensures forall i :: 0 <= i < |r| ==> '\n' !in r[i]
  {
    if s == "" then []
    else
      var pieces := Split(s, '\n');
      if pieces[|pieces| - 1] == "" then
        assert |pieces| >= 2 by {
          if |pieces| == 1 {
            JoinSplit(s, '\n');
          }
        }
        pieces[..|pieces| - 1]
      else pieces
  }

  /** Stripping twice is stripping once. */
  lemma StripIdempotent(s: string)
    ensures Strip(Strip(s)) == Strip(s)
  {
    StripSpec(s);
    NoEdgeSpaceStrip(Strip(s));
  }

  /** A string without whitespace at either end is its own strip. */
  lemma NoEdgeSpaceStrip(s: string)
    requires s == "" || (!IsSpace(s[0]) && !IsSpace(s[|s| - 1]))
    ensures Strip(s) == s
  {
    if s != "" {
      assert TrimLeft(s) == s;
      assert TrimRight(s) == s;
    }
  }

  /** Trailing whitespace after a non-space character stays behind it. */
  lemma {:induction false} TrimRightAfter(a: string, c: char, b: string)
    requires !IsSpace(c)
    ensures TrimRight(a + [c] + b) == a + [c] + TrimRight(b)
    decreases |b|
  {
    if b == "" {
      assert a + [c] + b == a + [c];
    } else if IsSpace(b[|b| - 1]) {
      var s := a + [c] + b;
      assert s[..|s| - 1] == a + [c] + b[..|b| - 1];
      TrimRightAfter(a, c, b[..|b| - 1]);
    } else {
    }
  }

  /** Splitting `a + [sep] + b` splits `a` and `b` separately. */
  lemma {:induction false} SplitAppend(a: string, sep: char, b: string)
    ensures Split(a + [sep] + b, sep) == Split(a, sep) + Split(b, sep)
    decreases |a|
  {
    var s := a + [sep] + b;
    if a == "" {
      assert s == [sep] + b;
      assert s[1..] == b;
    } else {
      assert s[0] == a[0];
      assert s[1..] == a[1..] + [sep] + b;
      SplitAppend(a[1..], sep, b);
    }
  }

  /** The first piece of a split is everything before the first separator. */
  lemma {:induction false} SplitFirstPiece(a: string, sep: char, b: string)
    requires sep !in a
    ensures Split(a + [sep] + b, sep)[0] == a
  {
    SplitAppend(a, sep, b);
    SplitNoSep(a, sep);
  }

  /** `lstrip` of a concatenation: an all-whitespace left part vanishes
      entirely, any other left part shields the right part. */
  lemma {:induction false} TrimLeftConcat(a: string, b: string)
    ensures TrimLeft(a + b) == if AllSpace(a) then TrimLeft(b) else TrimLeft(a) + b
    decreases |a|
  {
    if a == "" {
      assert a + b == b;
    } else {
      assert (a + b)[0] == a[0];
      assert (a + b)[1..] == a[1..] + b;
      if IsSpace(a[0]) {
        TrimLeftConcat(a[1..], b);
        assert forall i :: 1 <= i < |a| ==> a[i] == a[1..][i - 1];
      }
    }
  }

  /** `rstrip` of a concatenation: an all-whitespace right part vanishes
      entirely, any other right part shields the left part. */
  lemma {:induction false} TrimRightConcat(a: string, b: string)
    ensures TrimRight(a + b) == if AllSpace(b) then TrimRight(a) else a + TrimRight(b)
    decreases |b|
  {
    if b == "" {
      assert a + b == a;
    } else {
      var s := a + b;
      assert s[|s| - 1] == b[|b| - 1];
      assert s[..|s| - 1] == a + b[..|b| - 1];
      if IsSpace(b[|b| - 1]) {
        TrimRightConcat(a, b[..|b| - 1]);
        assert forall i :: 0 <= i < |b| - 1 ==> b[i] == b[..|b| - 1][i];
      }
    }
  }

  /** `lstrip` leaves nothing of an all-whitespace string. */
  lemma TrimLeftAllSpace(s: string)
    requires AllSpace(s)
    ensures TrimLeft(s) == ""
  {
    TrimLeftSpec(s);
  }

  /** `s.lstrip(c)` only looks at the front: a tail that does not start
      with `c` is kept as it is. */
  lemma {:induction false} LStripCharConcat(a: string, b: string, c: char)
    requires b == "" || b[0] != c
    ensures LStripChar(a + b, c) == LStripChar(a, c) + b
    decreases |a|
  {
    if a == "" {
      assert a + b == b;
    } else {
      assert (a + b)[0] == a[0];
      assert (a + b)[1..] == a[1..] + b;
      if a[0] == c {
        LStripCharConcat(a[1..], b, c);
      }
    }
  }

  /** The first piece of a split is a prefix of the text, ending where the
      text ends or at a separator. */
  lemma {:induction false} SplitHead(s: string, sep: char)
    ensures var p := Split(s, sep)[0];
      |p| <= |s| && s[..|p|] == p && (|p| == |s| || s[|p|] == sep)
  {
    if s != "" && s[0] != sep {
      SplitHead(s[1..], sep);
    }
  }

  /** A separator-free prefix becomes part of the first piece. */
  lemma {:induction false} SplitPrefix(a: string, s: string, sep: char)
    requires sep !in a
    ensures Split(a + s, sep)[0] == a + Split(s, sep)[0]
    decreases |a|
  {
    if a == "" {
      assert a + s == s;
    } else {
      var t := a + s;
      assert t[0] == a[0];
      assert t[1..] == a[1..] + s;
      SplitPrefix(a[1..], s, sep);
    }
  }

  /** A separator-free suffix becomes part of the last piece. */
  lemma {:induction false} SplitExtend(s: string, w: string, sep: char)
    requires sep !in w
    ensures var a := Split(s, sep);
      Split(s + w, sep) == a[..|a| - 1] + [a[|a| - 1] + w]
    decreases |s|
  {
    if s == "" {
      assert s + w == w;
      SplitNoSep(w, sep);
    } else {
      var t := s + w;
      assert t[0] == s[0];
      assert t[1..] == s[1..] + w;
      SplitExtend(s[1..], w, sep);
      var b := Split(s[1..], sep);
      if s[0] == sep {
        ExtendLast([""], b, w);
      } else {
        ExtendHead(s[0], b, w);
      }
    }
  }

  /** Extending the last of several lists' pieces, on plain sequences. */
  lemma ExtendLast(h: seq<string>, b: seq<string>, w: string)
    requires |b| >= 1
    ensures h + (b[..|b| - 1] + [b[|b| - 1] + w])
         == (h + b)[..|h + b| - 1] + [(h + b)[|h + b| - 1] + w]
  {
    assert (h + b)[..|h + b| - 1] == h + b[..|b| - 1];
  }

  /** Extending the last piece after a character joins the first piece. */
  lemma ExtendHead(c: char, b: seq<string>, w: string)
    requires |b| >= 1
    ensures var r := b[..|b| - 1] + [b[|b| - 1] + w];
      var a := [[c] + b[0]] + b[1..];
      [[c] + r[0]] + r[1..] == a[..|a| - 1] + [a[|a| - 1] + w]
  {
    if |b| == 1 {
      assert [c] + (b[0] + w) == [c] + b[0] + w;
    } else {
      var a := [[c] + b[0]] + b[1..];
      assert a[..|a| - 1] == [[c] + b[0]] + b[1..|b| - 1];
    }
  }

  /** Stripping never introduces a character. */
  lemma StripKeepsOut(s: string, c: char)
    ensures c !in s ==> c !in Strip(s)
  {
    var t := TrimLeft(s);
    var r := TrimRight(t);
    TrimLeftSpec(s);
    TrimRightSpec(t);
    if c in r {
      var k :| 0 <= k < |r| && r[k] == c;
      assert r[k] == t[k] == s[|s| - |t| + k];
    }
  }

  /** `s.rfind(c)`: the last index holding `c`, or -1. */
  function RFindChar(s: string, c: char): (r: int)
    ensures -1 <= r < |s|
    ensures r >= 0 ==> s[r] == c
    ensures forall i :: r < i < |s| ==> s[i] != c
  {
    if s == "" then -1
    else if s[|s| - 1] == c then |s| - 1
    else RFindChar(s[..|s| - 1], c)
  }

  // ---------------------------------------------------------------------
  // Replacing

  /** `s.replace(c, rep)` for a single-character pattern: every `c` becomes
      `rep`, every other character is kept. */
  function ReplaceChar(s: string, c: char, rep: string): (r: string)
    ensures c !in s ==> r == s
    ensures |rep| == 1 ==> |r| == |s|
  {
    if s == "" then ""
    else (if s[0] == c then rep else [s[0]]) + ReplaceChar(s[1..], c, rep)
  }

  /** Replacing in a single character. */
  lemma ReplaceCharOne(x: char, c: char, rep: string)
    ensures ReplaceChar([x], c, rep) == if x == c then rep else [x]
  {
    assert [x][1..] == "";
  }

  lemma {:induction false} ReplaceCharAppend(a: string, b: string, c: char, rep: string)
    ensures ReplaceChar(a + b, c, rep) == ReplaceChar(a, c, rep) + ReplaceChar(b, c, rep)
  {
    if a == "" {
      assert a + b == b;
    } else {
      assert (a + b)[0] == a[0];
      assert (a + b)[1..] == a[1..] + b;
      ReplaceCharAppend(a[1..], b, c, rep);
    }
  }

  /** A one-character replacement with a one-character string, position by
      position. */
  lemma {:induction false} ReplaceCharPointwise(s: string, c: char, d: char)
    ensures |ReplaceChar(s, c, [d])| == |s|
    ensures forall i :: 0 <= i < |s| ==> ReplaceChar(s, c, [d])[i] == (if s[i] == c then d else s[i])
  {
    if s != "" {
      ReplaceCharPointwise(s[1..], c, d);
    }
  }

  /** `s.replace(pat, rep)` for a non-empty pattern: scan left to right and
      replace non-overlapping occurrences. */
  function ReplaceAll(s: string, pat: string, rep: string): (r: string)
    requires pat != ""
    ensures !Contains(s, pat) ==> r == s
    decreases |s|
  {
    if |s| < |pat| then s
    else if s[..|pat|] == pat then
      assert OccursAt(s, pat, 0);
      rep + ReplaceAll(s[|pat|..], pat, rep)
    else
      ContainsTail(s, pat);
      assert [s[0]] + s[1..] == s;
      [s[0]] + ReplaceAll(s[1..], pat, rep)
  }

  /** A leading occurrence is replaced and scanning resumes after it. */
  lemma ReplaceLeading(pat: string, rest: string, rep: string)
    requires pat != ""
    ensures ReplaceAll(pat + rest, pat, rep) == rep + ReplaceAll(rest, pat, rep)
  {
    var s := pat + rest;
    assert s[..|pat|] == pat && s[|pat|..] == rest;
  }

  /** An occurrence in the tail of `s` is an occurrence in `s`. */
  lemma ContainsTail(s: string, pat: string)
    requires s != ""
    ensures Contains(s[1..], pat) ==> Contains(s, pat)
  {
    if Contains(s[1..], pat) {
      var i :| 0 <= i <= |s[1..]| - |pat| && OccursAt(s[1..], pat, i);
      assert s[i + 1..i + 1 + |pat|] == s[1..][i..i + |pat|];
      assert OccursAt(s, pat, i + 1);
    }
  }

  /** ASCII `lower()`: upper-case letters shift, nothing else changes. */
  function Lower(s: string): (r: string)
    ensures |r| == |s|
    ensures forall i :: 0 <= i < |s| ==> r[i] == LowerChar(s[i])
  {
    if s == "" then "" else [LowerChar(s[0])] + Lower(s[1..])
  }

  function LowerChar(c: char): char
  {
    if IsUpper(c) then (c as int + 32) as char else c
  }

  /** Text without capitals is its own lower-case form. */
  lemma LowerUnchanged(s: string)
    requires forall i | 0 <= i < |s| :: !IsUpper(s[i])
    ensures Lower(s) == s
  {
    assert forall i | 0 <= i < |s| :: Lower(s)[i] == s[i];
  }

  /** Lower-casing text between two capital-free parts leaves them be. */
  lemma LowerBetween(a: string, body: string, z: string)
    requires forall i | 0 <= i < |a| :: !IsUpper(a[i])
    requires forall i | 0 <= i < |z| :: !IsUpper(z[i])
    ensures Lower(a + body + z) == a + Lower(body) + z
  {
    LowerAppend(a + body, z);
    LowerAppend(a, body);
    LowerUnchanged(a);
    LowerUnchanged(z);
  }

  lemma {:induction false} LowerAppend(a: string, b: string)
    ensures Lower(a + b) == Lower(a) + Lower(b)
  {
    assert |Lower(a + b)| == |Lower(a) + Lower(b)|;
    forall i | 0 <= i < |a + b| ensures Lower(a + b)[i] == (Lower(a) + Lower(b))[i] {
      if i < |a| {
        assert (a + b)[i] == a[i];
      } else {
        assert (a + b)[i] == b[i - |a|];
      }
    }
  }

  // ---------------------------------------------------------------------
  // Decimal numbers

  function DigitChar(d: nat): char
    requires d < 10
  {
    ('0' as int + d) as char
  }

  /** `str(n)` for a natural number. */
  function NatToString(n: nat): (r: string)
    ensures |r| >= 1
    ensures forall i :: 0 <= i < |r| ==> IsDigit(r[i])
    ensures |r| > 1 ==> r[0] != '0'
  {
    if n < 10 then [DigitChar(n)] else NatToString(n / 10) + [DigitChar(n % 10)]
  }

  /** `str(i)` for any integer. */
  function IntToString(i: int): (r: string)
    ensures |r| >= 1
    ensures i >= 0 <==> IsDigit(r[0])
  {
    if i < 0 then "-" + NatToString(-i) else NatToString(i)
  }

  /** `int(s)` for a string of ASCII digits. */
  function ParseDigits(s: string): nat
    requires forall i :: 0 <= i < |s| ==> IsDigit(s[i])
  {
    if s == "" then 0
    else
      assert IsDigit(s[|s| - 1]);
      ParseDigits(s[..|s| - 1]) * 10 + (s[|s| - 1] as int - '0' as int)
  }

  /** Reading back a printed natural gives the number. */
  lemma {:induction false} ParsePrinted(n: nat)
    ensures ParseDigits(NatToString(n)) == n
  {
    if n >= 10 {
      var s := NatToString(n);
      ParsePrinted(n / 10);
      assert s[..|s| - 1] == NatToString(n / 10);
    }
  }

  /** The inverse of `IntToString`: accepts an optional minus sign followed
      by digits. */
  function ParseInt(s: string): (r: Option<int>)
  {
    if s == "" then None
    else if s[0] == '-' then
      (if |s| > 1 && forall i :: 1 <= i < |s| ==> IsDigit(s[i]) then Some(0 - ParseDigits(s[1..])) else None)
    else if forall i :: 0 <= i < |s| ==> IsDigit(s[i]) then Some(ParseDigits(s))
    else None
  }

  lemma IntRoundTrip(i: int)
    ensures ParseInt(IntToString(i)) == Some(i)
  {
    if i < 0 {
      ParsePrinted(-i);
      assert IntToString(i)[1..] == NatToString(-i);
    } else {
      ParsePrinted(i);
    }
  }

  /** Printing is injective: different numbers never print the same. */
  lemma IntToStringInjective(a: int, b: int)
    ensures IntToString(a) == IntToString(b) <==> a == b
  {
    if IntToString(a) == IntToString(b) {
      IntRoundTrip(a);
      IntRoundTrip(b);
    }
  }

  /** Python's `f"{n:03d}"` for a natural number: zero-padded to width 3. */
  function ZeroPad3(n: nat): (r: string)
    ensures |r| >= 3
    ensures forall i :: 0 <= i < |r| ==> IsDigit(r[i])
  {
    var d := NatToString(n);
    if |d| >= 3 then d else seq(3 - |d|, _ => '0') + d
  }

  lemma {:induction false} ParseZeros(z: string)
    requires forall i :: 0 <= i < |z| ==> z[i] == '0'
    ensures ParseDigits(z) == 0
  {
    if z != "" {
      ParseZeros(z[..|z| - 1]);
    }
  }

  /** Leading zeros do not change the value read. */
  lemma {:induction false} ParseLeadingZeros(z: string, d: string)
    requires forall i :: 0 <= i < |z| ==> z[i] == '0'
    requires forall i :: 0 <= i < |d| ==> IsDigit(d[i])
    ensures ParseDigits(z + d) == ParseDigits(d)
    decreases |d|
  {
    if d == "" {
      assert z + d == z;
      ParseZeros(z);
    } else {
      var s := z + d;
      assert s[..|s| - 1] == z + d[..|d| - 1];
      assert s[|s| - 1] == d[|d| - 1];
      ParseLeadingZeros(z, d[..|d| - 1]);
    }
  }

  /** Reading back a zero-padded number gives the number, so padding is
      injective. */
  lemma ZeroPad3Injective(a: nat, b: nat)
    ensures ZeroPad3(a) == ZeroPad3(b) <==> a == b
  {
    PaddedParses(a);
    PaddedParses(b);
  }

  lemma PaddedParses(n: nat)
    ensures ParseDigits(ZeroPad3(n)) == n
  {
    var d := NatToString(n);
    ParsePrinted(n);
    if |d| < 3 {
      ParseLeadingZeros(seq(3 - |d|, _ => '0'), d);
    }
  }
}
