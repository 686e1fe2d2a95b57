/**
 * `Database::splitSQLCommands` of the clinic web application: remove `--`
 * comments line by line, explode the text on `;`, drop the pieces that PHP's
 * `empty(trim(...))` rejects, and re-terminate the others with `;`.
 */
module SplitSql {

  import Text

  // ---------------------------------------------------------------------
  // explode
  // ---------------------------------------------------------------------

  /** The index of the first `c` in `s`, or `|s|` when there is none. */
  function IndexOf(s: string, c: char): (i: nat)
    ensures i <= |s|
    ensures i < |s| ==> s[i] == c
    ensures forall j :: 0 <= j < i ==> s[j] != c
  {
    if s == [] then 0
    else if s[0] == c then 0
    else 1 + IndexOf(s[1..], c)
  }

  /** PHP's `explode(sep, s)`: the maximal pieces of `s` between occurrences of `sep`. */
  function Explode(s: string, sep: char): (parts: seq<string>)
    ensures |parts| > 0
    decreases |s|
  {
    var i := IndexOf(s, sep);
    if i == |s| then [s] else [s[..i]] + Explode(s[i + 1..], sep)
  }

  /** A piece free of the separator is exploded at the separator that follows it. */
  lemma ExplodeCons(x: string, y: string, sep: char)
    requires sep !in x
    ensures Explode(x + [sep] + y, sep) == [x] + Explode(y, sep)
  {
    var s := x + [sep] + y;
    var i := IndexOf(s, sep);
    assert s[|x|] == sep;
    assert s[..i] == x && s[i + 1..] == y;
  }

  lemma ExplodeNone(x: string, sep: char)
    requires sep !in x
    ensures Explode(x, sep) == [x]
  {
  }

  /** `implode` undoes `explode`. */
  lemma {:induction false} ExplodeJoin(s: string, sep: char)
    ensures Text.Join([sep], Explode(s, sep)) == s
    decreases |s|
  {
    var i := IndexOf(s, sep);
    if i < |s| {
      var rest := Explode(s[i + 1..], sep);
      ExplodeJoin(s[i + 1..], sep);
      assert Explode(s, sep) == [s[..i]] + rest;
      assert ([s[..i]] + rest)[1..] == rest;
      assert s == s[..i] + [sep] + s[i + 1..];
    }
  }

  /** `explode` undoes `implode` when no piece holds the separator. */
  lemma {:induction false} JoinExplode(parts: seq<string>, sep: char)
    requires |parts| > 0
    requires forall k :: 0 <= k < |parts| ==> sep !in parts[k]
    ensures Explode(Text.Join([sep], parts), sep) == parts
    decreases |parts|
  {
    if |parts| == 1 {
      ExplodeNone(parts[0], sep);
    } else {
      var rest := parts[1..];
      JoinExplode(rest, sep);
      ExplodeCons(parts[0], Text.Join([sep], rest), sep);
      assert parts == [parts[0]] + rest;
    }
  }

  /** No piece contains the separator. */
  lemma {:induction false} ExplodeNoSep(s: string, sep: char)
    ensures forall k :: 0 <= k < |Explode(s, sep)| ==> sep !in Explode(s, sep)[k]
    decreases |s|
  {
    var i := IndexOf(s, sep);
    if i < |s| {
      ExplodeNoSep(s[i + 1..], sep);
      var rest := Explode(s[i + 1..], sep);
      assert Explode(s, sep) == [s[..i]] + rest;
      assert sep !in s[..i] by {
        forall j | 0 <= j < i ensures s[..i][j] != sep {
        }
      }
    } else {
      assert sep !in s by {
        forall j | 0 <= j < |s| ensures s[j] != sep {
        }
      }
    }
  }

  /** The number of occurrences of `c` in `s`. */
  function Count(s: string, c: char): nat
  {
    if s == [] then 0 else (if s[0] == c then 1 else 0) + Count(s[1..], c)
  }

  lemma {:induction false} CountAppend(a: string, b: string, c: char)
    ensures Count(a + b, c) == Count(a, c) + Count(b, c)
    decreases |a|
  {
    if a == [] {
      assert a + b == b;
    } else {
      assert (a + b)[1..] == a[1..] + b;
      CountAppend(a[1..], b, c);
    }
  }

  lemma {:induction false} CountNone(a: string, c: char)
    requires c !in a
    ensures Count(a, c) == 0
    decreases |a|
  {
    if a != [] {
      assert c !in a[1..] by {
        forall j | 0 <= j < |a| - 1 ensures a[1..][j] != c {
          assert a[1..][j] == a[j + 1];
        }
      }
      CountNone(a[1..], c);
    }
  }

  /** There is one piece more than there are separators. */
  lemma {:induction false} ExplodeCount(s: string, sep: char)
    ensures |Explode(s, sep)| == Count(s, sep) + 1
    decreases |s|
  {
    var i := IndexOf(s, sep);
    var x := s[..i];
    assert sep !in x by {
      forall j | 0 <= j < i ensures x[j] != sep {
      }
    }
    CountNone(x, sep);
    if i < |s| {
      var y := s[i + 1..];
      assert s == x + ([sep] + y);
      ExplodeCons(x, y, sep);
      assert Explode(s, sep) == [x] + Explode(y, sep);
      ExplodeCount(y, sep);
      CountAppend(x, [sep] + y, sep);
      assert ([sep] + y)[1..] == y;
      assert Count([sep] + y, sep) == 1 + Count(y, sep);
    } else {
      assert x == s;
    }
  }

  // ---------------------------------------------------------------------
  // trim and empty
  // ---------------------------------------------------------------------

  /** The characters PHP's `trim` removes by default: " \t\n\r\0\x0B". */
  predicate IsSpace(c: char)
  {
    c == ' ' || c == '\t' || c == '\n' || c == '\r' || c == '\0' || c == '\U{0B}'
  }

  predicate AllSpace(s: string)
  {
    forall i :: 0 <= i < |s| ==> IsSpace(s[i])
  }

  /** Neither end is a space. */
  predicate Trimmed(s: string)
  {
    s == [] || (!IsSpace(s[0]) && !IsSpace(s[|s| - 1]))
  }

  /** The number of leading spaces. */
  function Lead(s: string): (n: nat)
    ensures n <= |s| && AllSpace(s[..n])
    ensures n < |s| ==> !IsSpace(s[n])
  {
    if s == [] || !IsSpace(s[0]) then 0
    else
      var n := 1 + Lead(s[1..]);
      assert s[..n] == [s[0]] + s[1..][..n - 1];
      n
  }

  /** The end of `s` once the spaces after position `lo` are dropped from its right. */
  function Tail(s: string, lo: nat): (n: nat)
    requires lo <= |s|
    ensures lo <= n <= |s| && AllSpace(s[n..])
    ensures n > lo ==> !IsSpace(s[n - 1])
  {
    if |s| == lo || !IsSpace(s[|s| - 1]) then |s|
    else
      var n := Tail(s[..|s| - 1], lo);
      assert s[n..] == s[..|s| - 1][n..] + [s[|s| - 1]];
      n
  }

  /** PHP's `trim(s)`: `s` is spaces, then the result, then spaces. */
  function Trim(s: string): (r: string)
    ensures Trimmed(r)
    ensures Lead(s) + |r| <= |s| && r == s[Lead(s)..Lead(s) + |r|]
    ensures AllSpace(s[..Lead(s)]) && AllSpace(s[Lead(s) + |r|..])
  {
    s[Lead(s)..Tail(s, Lead(s))]
  }

  /** `trim` removes exactly the spaces around a trimmed text. */
  lemma TrimExact(w1: string, b: string, w2: string)
    requires AllSpace(w1) && AllSpace(w2) && Trimmed(b)
    ensures Trim(w1 + b + w2) == b
  {
    var s := w1 + b + w2;
    var lo := Lead(s);
    var r := Trim(s);
    if b == [] {
      assert forall i :: 0 <= i < |s| ==> IsSpace(s[i]);
    } else {
      assert s[|w1|] == b[0] && s[|w1| + |b| - 1] == b[|b| - 1];
      assert lo == |w1|;
      assert s[lo..lo + |b|] == b;
    }
  }

  /** `!empty(trim(seg))`: PHP's `empty` also holds for the string "0". */
  predicate Keep(seg: string)
  {
    Trim(seg) != "" && Trim(seg) != "0"
  }

  /** What `array_map` does to each kept piece: `trim($cmd) . ';'`. */
  function Terminate(seg: string): string
  {
    Trim(seg) + ";"
  }

  /** The values of PHP's `array_filter($xs, $keep)`, in order. */
  function Filter<T>(xs: seq<T>, keep: T -> bool): (ys: seq<T>)
    ensures |ys| <= |xs|
    ensures forall k :: 0 <= k < |ys| ==> keep(ys[k]) && ys[k] in xs
  {
    if xs == [] then []
    else (if keep(xs[0]) then [xs[0]] else []) + Filter(xs[1..], keep)
  }

  /** PHP's `array_map($f, $xs)`. */
  function Map<T, U>(xs: seq<T>, f: T -> U): (ys: seq<U>)
    ensures |ys| == |xs| && forall k :: 0 <= k < |xs| ==> ys[k] == f(xs[k])
  {
    seq(|xs|, k requires 0 <= k < |xs| => f(xs[k]))
  }

  /** The commands built from the pieces of the exploded text. */
  function Commands(segs: seq<string>): seq<string>
  {
    Map(Filter(segs, Keep), Terminate)
  }

  // ---------------------------------------------------------------------
  // comments
  // ---------------------------------------------------------------------

  /** The text holds no `--`. */
  predicate NoDoubleDash(s: string)
  {
    forall i :: 0 <= i < |s| - 1 ==> !(s[i] == '-' && s[i + 1] == '-')
  }

  /** The position of the leftmost `--` in a line, or its length. */
  function DashAt(l: string): (i: nat)
    ensures i <= |l|
    ensures i < |l| ==> i + 1 < |l| && l[i] == '-' && l[i + 1] == '-'
    ensures forall j :: 0 <= j < i && j + 1 < |l| ==> !(l[j] == '-' && l[j + 1] == '-')
  {
    if |l| < 2 then |l|
    else if l[0] == '-' && l[1] == '-' then 0
    else 1 + DashAt(l[1..])
  }

  /** One line after `--.*$` is replaced by nothing: it ends before its leftmost `--`. */
  function CutLine(l: string): (r: string)
    ensures r <= l && NoDoubleDash(r)
    ensures r == l <==> NoDoubleDash(l)
    ensures r != l ==> |r| + 1 < |l| && l[|r|] == '-' && l[|r| + 1] == '-'
    ensures r != l && |r| > 0 ==> l[|r| - 1] != '-'
    ensures |r| == DashAt(l)
  {
    var i := DashAt(l);
    assert NoDoubleDash(l[..i]) by {
      forall j | 0 <= j < i - 1 ensures !(l[..i][j] == '-' && l[..i][j + 1] == '-') {
      }
    }
    assert i < |l| ==> !NoDoubleDash(l);
    l[..i]
  }

  function CutLines(ls: seq<string>): (r: seq<string>)
    ensures |r| == |ls| && forall k :: 0 <= k < |ls| ==> r[k] == CutLine(ls[k])
  {
    seq(|ls|, k requires 0 <= k < |ls| => CutLine(ls[k]))
  }

  /** `preg_replace('/--.*$/m', '', sql)`: every line cut at its leftmost `--`, quotes notwithstanding. */
  function StripComments(sql: string): string
  {
    Text.Join("\n", CutLines(Explode(sql, '\n')))
  }

  /** `splitSQLCommands($sql)`, the commands in order. */
  function SplitSqlCommands(sql: string): seq<string>
  {
    Commands(Explode(StripComments(sql), ';'))
  }

  // ---------------------------------------------------------------------
  // properties of comment removal
  // ---------------------------------------------------------------------

  lemma NoDoubleDashConcat(a: string, b: string)
    requires NoDoubleDash(a) && NoDoubleDash(b)
    requires a == [] || b == [] || a[|a| - 1] != '-' || b[0] != '-'
    ensures NoDoubleDash(a + b)
  {
    var s := a + b;
    forall i | 0 <= i < |s| - 1 ensures !(s[i] == '-' && s[i + 1] == '-') {
      if i + 1 < |a| {
        assert s[i] == a[i] && s[i + 1] == a[i + 1];
      } else if i >= |a| {
        assert s[i] == b[i - |a|] && s[i + 1] == b[i - |a| + 1];
      }
    }
  }

  lemma SliceNoDoubleDash(s: string, lo: nat, hi: nat)
    requires lo <= hi <= |s| && NoDoubleDash(s)
    ensures NoDoubleDash(s[lo..hi])
  {
    var t := s[lo..hi];
    forall i | 0 <= i < |t| - 1 ensures !(t[i] == '-' && t[i + 1] == '-') {
      assert t[i] == s[lo + i] && t[i + 1] == s[lo + i + 1];
    }
  }

  /** Lines free of `--`, joined by newlines, give a text free of `--`. */
  lemma {:induction false} JoinNoDoubleDash(parts: seq<string>)
    requires forall k :: 0 <= k < |parts| ==> NoDoubleDash(parts[k])
    ensures NoDoubleDash(Text.Join("\n", parts))
    decreases |parts|
  {
    if |parts| > 1 {
      var rest := Text.Join("\n", parts[1..]);
      JoinNoDoubleDash(parts[1..]);
      NoDoubleDashConcat(parts[0], "\n");
      NoDoubleDashConcat(parts[0] + "\n", rest);
    }
  }

  /** Each piece of a text free of `--` is free of `--`. */
  lemma {:induction false} ExplodeNoDoubleDash(s: string, sep: char)
    requires NoDoubleDash(s)
    ensures forall k :: 0 <= k < |Explode(s, sep)| ==> NoDoubleDash(Explode(s, sep)[k])
    decreases |s|
  {
    var i := IndexOf(s, sep);
    if i < |s| {
      SliceNoDoubleDash(s, 0, i);
      SliceNoDoubleDash(s, i + 1, |s|);
      assert s[0..i] == s[..i] && s[i + 1..|s|] == s[i + 1..];
      ExplodeNoDoubleDash(s[i + 1..], sep);
    }
  }

  /** No `--` survives comment removal. */
  lemma StripNoDoubleDash(sql: string)
    ensures NoDoubleDash(StripComments(sql))
  {
    JoinNoDoubleDash(CutLines(Explode(sql, '\n')));
  }

  /** Comment removal changes a text exactly when it holds a `--`. */
  lemma StripIdentity(sql: string)
    ensures StripComments(sql) == sql <==> NoDoubleDash(sql)
  {
    StripNoDoubleDash(sql);
    if NoDoubleDash(sql) {
      var lines := Explode(sql, '\n');
      ExplodeNoDoubleDash(sql, '\n');
      assert CutLines(lines) == lines;
      ExplodeJoin(sql, '\n');
    }
  }

  /** Comment removal keeps the lines, each cut at its leftmost `--`. */
  lemma StripLines(sql: string)
    ensures Explode(StripComments(sql), '\n') == CutLines(Explode(sql, '\n'))
  {
    var lines := Explode(sql, '\n');
    var cut := CutLines(lines);
    ExplodeNoSep(sql, '\n');
    forall k | 0 <= k < |cut| ensures '\n' !in cut[k] {
      assert cut[k] == lines[k][..|cut[k]|];
    }
    JoinExplode(cut, '\n');
  }

  // ---------------------------------------------------------------------
  // properties of the commands
  // ---------------------------------------------------------------------

  lemma {:induction false} FilterAppend<T>(a: seq<T>, b: seq<T>, keep: T -> bool)
    ensures Filter(a + b, keep) == Filter(a, keep) + Filter(b, keep)
    decreases |a|
  {
    if a == [] {
      assert a + b == b;
    } else {
      var head := if keep(a[0]) then [a[0]] else [];
      var ab := a + b;
      assert ab[0] == a[0] && ab[1..] == a[1..] + b;
      FilterAppend(a[1..], b, keep);
      var fa, fb := Filter(a[1..], keep), Filter(b, keep);
      assert head + (fa + fb) == (head + fa) + fb;
    }
  }

  lemma MapAppend<T, U>(a: seq<T>, b: seq<T>, f: T -> U)
    ensures Map(a + b, f) == Map(a, f) + Map(b, f)
  {
  }

  /** Filtering and mapping pieces distributes over concatenation. */
  lemma CommandsAppend(a: seq<string>, b: seq<string>)
    ensures Commands(a + b) == Commands(a) + Commands(b)
  {
    FilterAppend(a, b, Keep);
    MapAppend(Filter(a, Keep), Filter(b, Keep), Terminate);
  }

  lemma CommandsCons(x: string, segs: seq<string>)
    ensures Commands([x] + segs) == (if Keep(x) then [Terminate(x)] else []) + Commands(segs)
  {
    var h := if Keep(x) then [x] else [];
    var f := Filter(segs, Keep);
    assert Filter([x] + segs, Keep) == h + f by {
      assert ([x] + segs)[0] == x && ([x] + segs)[1..] == segs;
    }
    MapAppend(h, f, Terminate);
    assert Map(h, Terminate) == if Keep(x) then [Terminate(x)] else [];
  }

  /**
   * A returned command: a trimmed body that is neither "" nor "0" and holds
   * no `;`, then a single `;`, with no `--` anywhere.
   */
  predicate IsCommand(c: string)
  {
    |c| > 0 && c[|c| - 1] == ';' && NoDoubleDash(c)
    && var body := c[..|c| - 1];
       body != "" && body != "0" && Trimmed(body) && ';' !in body
  }

  lemma TrimmedPiece(seg: string)
    requires ';' !in seg && NoDoubleDash(seg) && Keep(seg)
    ensures IsCommand(Trim(seg) + ";")
  {
    var t := Trim(seg);
    var lo := Lead(seg);
    SliceNoDoubleDash(seg, lo, lo + |t|);
    NoDoubleDashConcat(t, ";");
    assert (t + ";")[..|t|] == t;
  }

  lemma CommandsShape(segs: seq<string>)
    requires forall k :: 0 <= k < |segs| ==> ';' !in segs[k] && NoDoubleDash(segs[k])
    ensures forall k :: 0 <= k < |Commands(segs)| ==> IsCommand(Commands(segs)[k])
  {
    var kept := Filter(segs, Keep);
    forall k | 0 <= k < |kept| ensures IsCommand(Terminate(kept[k])) {
      TrimmedPiece(kept[k]);
    }
  }

  /** Every returned command ends with its only `;`, holds no `--` and has a trimmed body other than "" and "0". */
  lemma SplitShape(sql: string)
    ensures forall k :: 0 <= k < |SplitSqlCommands(sql)| ==> IsCommand(SplitSqlCommands(sql)[k])
  {
    var t := StripComments(sql);
    StripNoDoubleDash(sql);
    ExplodeNoSep(t, ';');
    ExplodeNoDoubleDash(t, ';');
    CommandsShape(Explode(t, ';'));
  }

  /** At most one command more than there are `;` in the text left after comment removal. */
  lemma SplitCount(sql: string)
    ensures |SplitSqlCommands(sql)| <= Count(StripComments(sql), ';') + 1
  {
    ExplodeCount(StripComments(sql), ';');
  }

  lemma JoinCons(c: string, rest: seq<string>)
    ensures Text.Join("\n", [c] + rest) == c + ((if rest == [] then "" else "\n") + Text.Join("\n", rest))
  {
    var parts := [c] + rest;
    assert parts[0] == c && parts[1..] == rest;
    if rest == [] {
      assert c + ("" + "") == c;
    } else {
      var j := Text.Join("\n", rest);
      assert (c + "\n") + j == c + ("\n" + j);
    }
  }

  /** Spaces alone hold no `;` and are dropped. */
  lemma SpacesDropped(w: string)
    requires AllSpace(w)
    ensures ';' !in w && !Keep(w)
  {
    assert ';' !in w by {
      forall j | 0 <= j < |w| ensures w[j] != ';' {
        assert IsSpace(w[j]);
      }
    }
    TrimExact(w, "", "");
    assert w + "" + "" == w;
  }

  /** Spaces then the body of a command: the piece that gives the command back. */
  lemma SpacedBody(w: string, c: string)
    requires AllSpace(w) && IsCommand(c)
    ensures var x := w + c[..|c| - 1];
            ';' !in x && Keep(x) && Trim(x) + ";" == c
  {
    var b := c[..|c| - 1];
    var x := w + b;
    assert ';' !in x by {
      forall j | 0 <= j < |x| ensures x[j] != ';' {
        if j < |w| {
          assert IsSpace(w[j]);
        } else {
          assert x[j] == b[j - |w|];
        }
      }
    }
    TrimExact(w, b, "");
    assert x + "" == x;
    assert c == b + ";";
  }

  /** The first command of a joined text comes back from its first piece. */
  lemma ResplitStep(w: string, c: string, rest: seq<string>)
    requires AllSpace(w) && IsCommand(c)
    ensures Commands(Explode(w + Text.Join("\n", [c] + rest), ';'))
            == [c] + Commands(Explode((if rest == [] then "" else "\n") + Text.Join("\n", rest), ';'))
  {
    var r := (if rest == [] then "" else "\n") + Text.Join("\n", rest);
    JoinCons(c, rest);
    var x := w + c[..|c| - 1];
    SpacedBody(w, c);
    assert w + Text.Join("\n", [c] + rest) == x + [';'] + r by {
      assert c == c[..|c| - 1] + [';'];
    }
    ExplodeCons(x, r, ';');
    CommandsCons(x, Explode(r, ';'));
  }

  /** Commands joined by newlines, after leading spaces, split back into the same commands. */
  lemma {:induction false} ResplitJoined(w: string, cmds: seq<string>)
    requires AllSpace(w)
    requires forall k :: 0 <= k < |cmds| ==> IsCommand(cmds[k])
    ensures Commands(Explode(w + Text.Join("\n", cmds), ';')) == cmds
    decreases |cmds|
  {
    if cmds == [] {
      assert w + Text.Join("\n", cmds) == w;
      SpacesDropped(w);
      ExplodeNone(w, ';');
      CommandsCons(w, []);
    } else {
      var c, rest := cmds[0], cmds[1..];
      assert cmds == [c] + rest;
      ResplitStep(w, c, rest);
      ResplitJoined(if rest == [] then "" else "\n", rest);
    }
  }

  /** Well-formed commands joined by newlines split back into themselves. */
  lemma SplitJoined(cmds: seq<string>)
    requires forall k :: 0 <= k < |cmds| ==> IsCommand(cmds[k])
    ensures SplitSqlCommands(Text.Join("\n", cmds)) == cmds
  {
    var text := Text.Join("\n", cmds);
    JoinNoDoubleDash(cmds);
    StripIdentity(text);
    ResplitJoined("", cmds);
    assert "" + text == text;
  }

  /** Splitting is idempotent on its own output joined by newlines. */
  lemma SplitIdempotent(sql: string)
    ensures SplitSqlCommands(Text.Join("\n", SplitSqlCommands(sql))) == SplitSqlCommands(sql)
  {
    SplitShape(sql);
    SplitJoined(SplitSqlCommands(sql));
  }

  /** Every element `keep` accepts survives the filter. */
  lemma {:induction false} FilterComplete<T>(xs: seq<T>, keep: T -> bool)
    ensures forall j :: 0 <= j < |xs| && keep(xs[j]) ==> xs[j] in Filter(xs, keep)
    decreases |xs|
  {
    if xs != [] {
      FilterComplete(xs[1..], keep);
      forall j | 1 <= j < |xs| && keep(xs[j]) ensures xs[j] in Filter(xs, keep) {
        assert xs[1..][j - 1] == xs[j];
      }
    }
  }

  /** `c` is some piece of `segs` that `Keep` accepts, trimmed and terminated. */
  predicate FromPiece(segs: seq<string>, c: string)
  {
    exists p :: p in segs && Keep(p) && c == Terminate(p)
  }

  /** Each command is a piece `Keep` accepts, trimmed and terminated. */
  lemma CommandsFromPieces(segs: seq<string>)
    ensures forall k :: 0 <= k < |Commands(segs)| ==> FromPiece(segs, Commands(segs)[k])
  {
    var kept := Filter(segs, Keep);
    assert |Commands(segs)| == |kept|;
    forall k | 0 <= k < |Commands(segs)| ensures FromPiece(segs, Commands(segs)[k]) {
      var p := kept[k];
      assert p in segs && Keep(p) && Commands(segs)[k] == Terminate(p);
    }
  }

  /** Each piece `Keep` accepts gives a command. */
  lemma PiecesGiveCommands(segs: seq<string>)
    ensures forall j :: 0 <= j < |segs| && Keep(segs[j]) ==> Terminate(segs[j]) in Commands(segs)
  {
    var kept := Filter(segs, Keep);
    FilterComplete(segs, Keep);
    forall j | 0 <= j < |segs| && Keep(segs[j]) ensures Terminate(segs[j]) in Commands(segs) {
      var k :| 0 <= k < |kept| && kept[k] == segs[j];
      assert Commands(segs)[k] == Terminate(segs[j]);
    }
  }

  /** A trimmed piece other than "" and "0" gives itself, terminated. */
  lemma KeptPiece(b: string)
    requires Trimmed(b) && b != "" && b != "0"
    ensures Keep(b) && Terminate(b) == b + ";"
  {
    TrimExact("", b, "");
    assert "" + b + "" == b;
  }

  /** A word inside a quoted value: no `;`, no `-` and no space. */
  predicate Word(a: string)
  {
    |a| > 0 && forall i :: 0 <= i < |a| ==> a[i] != ';' && a[i] != '-' && !IsSpace(a[i])
  }

  /** Two pieces around one `;`, neither holding a `-`, give two commands. */
  lemma SplitTwo(x: string, y: string)
    requires ';' !in x && ';' !in y && '-' !in x && '-' !in y
    requires Trimmed(x) && x != "" && x != "0" && Trimmed(y) && y != "" && y != "0"
    ensures SplitSqlCommands(x + [';'] + y) == [x + ";", y + ";"]
  {
    var sql := x + [';'] + y;
    assert '-' !in sql;
    assert NoDoubleDash(sql);
    StripIdentity(sql);
    ExplodeCons(x, y, ';');
    ExplodeNone(y, ';');
    KeptPiece(x);
    KeptPiece(y);
    CommandsCons(x, [y]);
    CommandsCons(y, []);
  }

  /**
   * The splitter does not know SQL string literals: a `;` inside a quoted
   * value splits the statement in two.
   */
  lemma SemicolonInQuotes(a: string, b: string)
    requires Word(a) && Word(b)
    ensures SplitSqlCommands("'" + a + ";" + b + "'") == ["'" + a + ";", b + "';"]
  {
    var x, y := "'" + a, b + "'";
    assert "'" + a + ";" + b + "'" == x + [';'] + y;
    assert ';' !in x && '-' !in x by {
      assert forall i :: 1 <= i < |x| ==> x[i] == a[i - 1];
    }
    assert ';' !in y && '-' !in y by {
      assert forall i :: 0 <= i < |b| ==> y[i] == b[i];
    }
    assert x[|x| - 1] == a[|a| - 1];
    SplitTwo(x, y);
    assert y + ";" == b + "';";
  }

  /** A line is cut right before the first `--` when nothing before it holds a `-`. */
  lemma CutBeforeDashes(x: string, rest: string)
    requires '-' !in x
    ensures CutLine(x + "--" + rest) == x
  {
    var l := x + "--" + rest;
    assert DashAt(l) == |x| by {
      assert l[|x|] == '-' && l[|x| + 1] == '-';
      assert forall i :: 0 <= i < |x| ==> l[i] == x[i];
    }
    assert l[..|x|] == x;
  }

  /**
   * A `--` inside a quoted value cuts off the rest of its line, closing quote
   * and `;` included.
   */
  lemma DashesInQuotes(a: string, b: string)
    requires Word(a) && '\n' !in b
    ensures SplitSqlCommands("'" + a + "--" + b + "';") == ["'" + a + ";"]
  {
    var x := "'" + a;
    var sql := x + "--" + b + "';";
    assert "'" + a + "--" + b + "';" == sql;
    assert ';' !in x && '-' !in x by {
      assert forall i :: 1 <= i < |x| ==> x[i] == a[i - 1];
    }
    assert '\n' !in sql by {
      assert forall i :: |x| + 2 <= i < |x| + 2 + |b| ==> sql[i] == b[i - |x| - 2];
    }
    ExplodeNone(sql, '\n');
    CutBeforeDashes(x, b + "';");
    assert sql == x + "--" + (b + "';");
    assert StripComments(sql) == x;
    ExplodeNone(x, ';');
    assert x[|x| - 1] == a[|a| - 1];
    KeptPiece(x);
    CommandsCons(x, []);
  }
}
