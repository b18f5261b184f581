/**
 * `prepareMarkdownString`: the rewrite of a map description from forum markup
 * and HTML links into Markdown. Both source files carry the same function.
 *
 * Each rewrite is a global regular-expression replace whose groups are lazy
 * (`(.*?)` with the dot matching newlines): it scans left to right, and at the
 * first position where the opening literal stands and the closing delimiters
 * follow in order, each group is the text up to the FIRST occurrence of the
 * delimiter that follows it. The match is replaced and the scan resumes after
 * it; elsewhere characters are copied.
 */
module Markup {
  import opened Wrappers

  /** `d` stands in `s` at index `k`. */
  predicate OccursAt(s: string, k: int, d: string) {
    0 <= k && k + |d| <= |s| && s[k..k + |d|] == d
  }

  /** The first index at or after `from` where `d` stands in `s`. */
  function FindFrom(s: string, d: string, from: nat): (r: Option<nat>)
    decreases |s| - from
    ensures r.Some? ==> from <= r.value && OccursAt(s, r.value, d)
    ensures r.Some? ==> forall k :: from <= k < r.value ==> !OccursAt(s, k, d)
    ensures r.None? ==> forall k :: from <= k ==> !OccursAt(s, k, d)
  {
    if from + |d| > |s| then None
    else if s[from..from + |d|] == d then Some(from)
    else FindFrom(s, d, from + 1)
  }

  /** The three rewrites, in the order they run. */
  datatype Rule = UrlTag | AnchorTag | CodeTag

  /** The literal a match starts with. */
  function Open(rule: Rule): (o: string)
    ensures |o| >= 5 && (o[0] == '[' || o[0] == '<')
  {
    match rule
    case UrlTag => "[url="
    case AnchorTag => "<a href=\""
    case CodeTag => "[code]"
  }

  /** The literal that ends each lazy group, one per group. */
  function Delims(rule: Rule): seq<string>
  {
    match rule
    case UrlTag => ["]", "[/url]"]
    case AnchorTag => ["\">", "</a>"]
    case CodeTag => ["[/code]"]
  }

  /** The replacement template with its groups filled in. */
  function Render(rule: Rule, groups: seq<string>): string
    requires |groups| == |Delims(rule)|
  {
    match rule
    case UrlTag => "[" + groups[1] + "](" + groups[0] + ")"
    case AnchorTag => "[" + groups[1] + "](" + groups[0] + ")"
    case CodeTag => "  \n```plaintext\n" + groups[0] + "\n```  \n"
  }

  /**
   * The lazy groups from index `pos` on: each group runs to the first
   * occurrence of its delimiter. Gives the groups and the index after the
   * last delimiter.
   */
  function MatchGroups(s: string, pos: nat, delims: seq<string>): (r: Option<(seq<string>, nat)>)
    requires pos <= |s|
    decreases |delims|
    ensures r.Some? ==> |r.value.0| == |delims| && pos <= r.value.1 <= |s|
  {
    if delims == [] then Some(([], pos))
    else
      match FindFrom(s, delims[0], pos)
      case None => None
      case Some(k) =>
        match MatchGroups(s, k + |delims[0]|, delims[1..])
        case None => None
        case Some(m) => Some(([s[pos..k]] + m.0, m.1))
  }

  /** A match of `rule` at the head of `s`: its groups and its length. */
  function MatchAt(rule: Rule, s: string): (r: Option<(seq<string>, nat)>)
    ensures r.Some? ==> |r.value.0| == |Delims(rule)| && |Open(rule)| <= r.value.1 <= |s|
    ensures r.Some? ==> OccursAt(s, 0, Open(rule))
  {
    if OccursAt(s, 0, Open(rule)) then MatchGroups(s, |Open(rule)|, Delims(rule)) else None
  }

  /** `s.replace(/open(.*?)delim…/gs, template)`. */
  function ReplaceAll(rule: Rule, s: string): string
    decreases |s|
  {
    if s == [] then []
    else
      match MatchAt(rule, s)
      case Some(m) => Render(rule, m.0) + ReplaceAll(rule, s[m.1..])
      case None => [s[0]] + ReplaceAll(rule, s[1..])
  }

  /**
   * `s.replace('\n', '  \n')`: a string pattern, so only the first newline
   * becomes a Markdown hard break; every later character is kept as it is.
   */
  function FirstBreak(s: string): (r: string)
    ensures '\n' !in s ==> r == s
    ensures |r| == if '\n' in s then |s| + 2 else |s|
    ensures forall c :: c in r ==> c in s || c == ' '
  {
    if s == [] then []
    else if s[0] == '\n' then "  \n" + s[1..]
    else
      assert '\n' in s <==> '\n' in s[1..];
      [s[0]] + FirstBreak(s[1..])
  }

  /**
   * The first newline, at `i`, gets two spaces in front of it; what comes
   * before it and everything after it, later newlines included, is kept.
   */
  lemma {:induction false} FirstBreakAt(s: string, i: nat)
    requires i < |s| && s[i] == '\n' && '\n' !in s[..i]
    ensures FirstBreak(s) == s[..i] + "  " + s[i..]
  {
    if i == 0 {
      assert s[..0] + "  " + s[0..] == "  \n" + s[1..];
    } else {
      assert s[0] == s[..i][0];
      assert s[1..][..i - 1] == s[1..i];
      assert '\n' !in s[1..][..i - 1] by {
        assert s[1..i] == s[..i][1..];
      }
      var t := s[1..];
      calc {
        FirstBreak(s);
        [s[0]] + FirstBreak(t);
        { FirstBreakAt(t, i - 1); }
        [s[0]] + (t[..i - 1] + "  " + t[i - 1..]);
        ([s[0]] + t[..i - 1]) + "  " + t[i - 1..];
        { assert s[..i] == [s[0]] + t[..i - 1]; assert s[i..] == t[i - 1..]; }
        s[..i] + "  " + s[i..];
      }
    }
  }

  /** `prepareMarkdownString`: the first-newline break, then url, anchor and code rewrites, in that order. */
  function Prepare(description: string): string
  {
    ReplaceAll(CodeTag, ReplaceAll(AnchorTag, ReplaceAll(UrlTag, FirstBreak(description))))
  }

  // ---------------------------------------------------------------------------
  // What a lazy match is, independently of how MatchGroups finds it.
  // ---------------------------------------------------------------------------

  /** `d` first occurs in `g + d` at the end: the group `g` is as short as a lazy group can be. */
  predicate Shortest(g: string, d: string) {
    forall j :: 0 <= j < |g| ==> !OccursAt(g + d, j, d)
  }

  /** The groups `gs` split `s` from `pos` on as the lazy groups do, ending at `end`. */
  ghost predicate LazyMatch(s: string, pos: nat, ds: seq<string>, gs: seq<string>, end: nat)
    decreases |ds|
  {
    |gs| == |ds| &&
    if ds == [] then end == pos
    else
      var k := pos + |gs[0]|;
      k <= |s| && s[pos..k] == gs[0] && OccursAt(s, k, ds[0]) &&
      (forall j :: pos <= j < k ==> !OccursAt(s, j, ds[0])) &&
      LazyMatch(s, k + |ds[0]|, ds[1..], gs[1..], end)
  }

  /** The delimiters stand at the positions `ks`, in order, from `pos` on, whatever lies between them. */
  ghost predicate FitsAt(s: string, pos: nat, ds: seq<string>, ks: seq<nat>)
    decreases |ds|
  {
    |ks| == |ds| &&
    (ds == [] || (pos <= ks[0] && OccursAt(s, ks[0], ds[0]) && FitsAt(s, ks[0] + |ds[0]|, ds[1..], ks[1..])))
  }

  /** The delimiters occur in order from `pos` on. */
  ghost predicate Fits(s: string, pos: nat, ds: seq<string>) {
    exists ks :: FitsAt(s, pos, ds, ks)
  }

  /** The groups and delimiters written one after the other. */
  function Layout(gs: seq<string>, ds: seq<string>): string
    requires |gs| == |ds|
  {
    if ds == [] then "" else gs[0] + ds[0] + Layout(gs[1..], ds[1..])
  }

  /** MatchGroups returns exactly the lazy split: what it returns is lazy, and every lazy split is what it returns. */
  lemma MatchGroupsIsLazy(s: string, pos: nat, ds: seq<string>, gs: seq<string>, end: nat)
    requires pos <= |s|
    ensures MatchGroups(s, pos, ds) == Some((gs, end)) <==> LazyMatch(s, pos, ds, gs, end)
  {
    if MatchGroups(s, pos, ds) == Some((gs, end)) {
      MatchGroupsSound(s, pos, ds);
    }
    if LazyMatch(s, pos, ds, gs, end) {
      LazyMatchFound(s, pos, ds, gs, end);
    }
  }

  lemma {:induction false} MatchGroupsSound(s: string, pos: nat, ds: seq<string>)
    requires pos <= |s|
    requires MatchGroups(s, pos, ds).Some?
    ensures LazyMatch(s, pos, ds, MatchGroups(s, pos, ds).value.0, MatchGroups(s, pos, ds).value.1)
    decreases |ds|
  {
    if ds != [] {
      var k := FindFrom(s, ds[0], pos).value;
      var next := k + |ds[0]|;
      var m := MatchGroups(s, next, ds[1..]).value;
      var gs := [s[pos..k]] + m.0;
      assert MatchGroups(s, pos, ds).value == (gs, m.1);
      assert gs[0] == s[pos..k] && gs[1..] == m.0;
      MatchGroupsSound(s, next, ds[1..]);
      assert pos + |gs[0]| == k;
    }
  }

  lemma {:induction false} LazyMatchFound(s: string, pos: nat, ds: seq<string>, gs: seq<string>, end: nat)
    requires pos <= |s|
    requires LazyMatch(s, pos, ds, gs, end)
    ensures MatchGroups(s, pos, ds) == Some((gs, end))
    decreases |ds|
  {
    if ds != [] {
      var k := pos + |gs[0]|;
      var f := FindFrom(s, ds[0], pos);
      assert OccursAt(s, k, ds[0]);
      assert f == Some(k);
      LazyMatchFound(s, k + |ds[0]|, ds[1..], gs[1..], end);
      assert gs == [s[pos..k]] + gs[1..];
    }
  }

  /** Lazy matching misses nothing: MatchGroups succeeds exactly when the delimiters occur in order. */
  lemma MatchGroupsComplete(s: string, pos: nat, ds: seq<string>)
    requires pos <= |s|
    ensures MatchGroups(s, pos, ds).Some? <==> Fits(s, pos, ds)
  {
    if Fits(s, pos, ds) {
      var ks :| FitsAt(s, pos, ds, ks);
      FitsFound(s, pos, ds, ks);
    }
    if MatchGroups(s, pos, ds).Some? {
      var ks := FoundFits(s, pos, ds);
    }
  }

  lemma {:induction false} FitsFound(s: string, pos: nat, ds: seq<string>, ks: seq<nat>)
    requires pos <= |s| && FitsAt(s, pos, ds, ks)
    ensures MatchGroups(s, pos, ds).Some?
    decreases |ds|
  {
    if ds != [] {
      var q := FindFromNoLater(s, ds[0], pos, ks[0]);
      FitsFound(s, q + |ds[0]|, ds[1..], ks[1..]);
      MatchGroupsStep(s, pos, ds, q);
    }
  }

  /** An occurrence at `k` means the search from `pos` finds one no later than `k`. */
  lemma FindFromNoLater(s: string, d: string, pos: nat, k: nat) returns (q: nat)
    requires pos <= k && OccursAt(s, k, d)
    ensures FindFrom(s, d, pos) == Some(q) && q <= k && q + |d| <= |s|
  {
    q := FindFrom(s, d, pos).value;
  }

  /** The groups match once the first delimiter is found and the rest match after it. */
  lemma MatchGroupsStep(s: string, pos: nat, ds: seq<string>, q: nat)
    requires pos <= |s| && ds != [] && FindFrom(s, ds[0], pos) == Some(q)
    requires q + |ds[0]| <= |s| && MatchGroups(s, q + |ds[0]|, ds[1..]).Some?
    ensures MatchGroups(s, pos, ds).Some?
  {
  }

  /** The positions where MatchGroups finds the delimiters witness that they occur in order. */
  lemma {:induction false} FoundFits(s: string, pos: nat, ds: seq<string>) returns (ks: seq<nat>)
    requires pos <= |s| && MatchGroups(s, pos, ds).Some?
    ensures FitsAt(s, pos, ds, ks)
    decreases |ds|
  {
    if ds == [] {
      ks := [];
    } else {
      var q := FindFrom(s, ds[0], pos).value;
      var rest := FoundFits(s, q + |ds[0]|, ds[1..]);
      ks := [q] + rest;
      assert ks[0] == q && ks[1..] == rest;
    }
  }

  /** Groups laid out with their delimiters, each as short as possible, form the lazy split. */
  lemma {:induction false} LayoutIsLazy(s: string, pos: nat, ds: seq<string>, gs: seq<string>)
    requires |gs| == |ds|
    requires forall i :: 0 <= i < |ds| ==> Shortest(gs[i], ds[i])
    requires pos + |Layout(gs, ds)| <= |s| && s[pos..pos + |Layout(gs, ds)|] == Layout(gs, ds)
    ensures LazyMatch(s, pos, ds, gs, pos + |Layout(gs, ds)|)
    decreases |ds|
  {
    if ds != [] {
      var g, d := gs[0], ds[0];
      var rest := Layout(gs[1..], ds[1..]);
      assert Layout(gs, ds) == g + d + rest;
      LayoutHead(s, pos, g, d, rest);
      forall i | 0 <= i < |ds[1..]| ensures Shortest(gs[1..][i], ds[1..][i]) {
        assert Shortest(gs[i + 1], ds[i + 1]);
      }
      LayoutIsLazy(s, pos + |g| + |d|, ds[1..], gs[1..]);
    }
  }

  /** The first group of a layout, when it is as short as possible, ends where its delimiter first occurs. */
  lemma LayoutHead(s: string, pos: nat, g: string, d: string, rest: string)
    requires Shortest(g, d)
    requires pos + |g + d + rest| <= |s| && s[pos..pos + |g + d + rest|] == g + d + rest
    ensures pos + |g| <= |s| && s[pos..pos + |g|] == g && OccursAt(s, pos + |g|, d)
    ensures forall j :: pos <= j < pos + |g| ==> !OccursAt(s, j, d)
    ensures s[pos + |g| + |d|..pos + |g| + |d| + |rest|] == rest
  {
    LayoutHeadParts(s, pos, g, d, rest);
    LayoutHeadShortest(s, pos, g, d, rest);
  }

  lemma LayoutHeadParts(s: string, pos: nat, g: string, d: string, rest: string)
    requires pos + |g + d + rest| <= |s| && s[pos..pos + |g + d + rest|] == g + d + rest
    ensures pos + |g| <= |s| && s[pos..pos + |g|] == g && OccursAt(s, pos + |g|, d)
    ensures s[pos + |g| + |d|..pos + |g| + |d| + |rest|] == rest
  {
    var lay := g + d + rest;
    var k := pos + |g|;
    assert s[pos..k] == g by {
      assert s[pos..k] == s[pos..pos + |lay|][..|g|];
      assert lay[..|g|] == g;
    }
    assert OccursAt(s, k, d) by {
      SliceOfSlice(s, pos, pos + |lay|, |g|, |g| + |d|);
      assert lay[|g|..|g| + |d|] == d;
    }
    assert s[k + |d|..k + |d| + |rest|] == rest by {
      assert s[k + |d|..k + |d| + |rest|] == s[pos..pos + |lay|][|g + d|..];
      assert lay[|g + d|..] == rest;
    }
  }

  lemma LayoutHeadShortest(s: string, pos: nat, g: string, d: string, rest: string)
    requires Shortest(g, d)
    requires pos + |g + d + rest| <= |s| && s[pos..pos + |g + d + rest|] == g + d + rest
    ensures forall j :: pos <= j < pos + |g| ==> !OccursAt(s, j, d)
  {
    var lay := g + d + rest;
    var gd := g + d;
    assert lay == gd + rest;
    forall j | pos <= j < pos + |g| ensures !OccursAt(s, j, d) {
      SliceOfSlice(s, pos, pos + |lay|, j - pos, j - pos + |d|);
      assert lay[j - pos..j - pos + |d|] == gd[j - pos..j - pos + |d|];
      assert !OccursAt(gd, j - pos, d);
    }
  }


  lemma SliceOfSlice(s: string, a: nat, b: nat, c: nat, e: nat)
    requires a <= b <= |s| && c <= e <= b - a
    ensures s[a..b][c..e] == s[a + c..a + e]
  {
    assert forall i | 0 <= i < e - c :: s[a..b][c..e][i] == s[a + c + i];
  }

  /** A group holding no copy of its delimiter's first character is as short as possible. */
  lemma ShortestWithoutLead(g: string, d: string)
    requires d != [] && d[0] !in g
    ensures Shortest(g, d)
  {
    forall j | 0 <= j < |g| ensures !OccursAt(g + d, j, d) {
      if j + |d| <= |g + d| {
        assert (g + d)[j..j + |d|][0] == g[j];
      }
    }
  }

  // ---------------------------------------------------------------------------
  // What the replace does.
  // ---------------------------------------------------------------------------

  /** One match at the head is replaced by its template and the scan goes on after it. */
  lemma RewriteHead(rule: Rule, gs: seq<string>, rest: string)
    requires |gs| == |Delims(rule)|
    requires forall i :: 0 <= i < |gs| ==> Shortest(gs[i], Delims(rule)[i])
    ensures ReplaceAll(rule, Open(rule) + Layout(gs, Delims(rule)) + rest)
            == Render(rule, gs) + ReplaceAll(rule, rest)
  {
    var o, ds := Open(rule), Delims(rule);
    var lay := Layout(gs, ds);
    var s := o + lay + rest;
    var end := |o| + |lay|;
    MatchAtHead(rule, gs, rest);
    assert s[end..] == rest;
    ReplaceAllAtMatch(rule, s, gs, end);
  }

  /** The opening tag, then a layout of shortest groups: the match at the head has exactly those groups. */
  lemma MatchAtHead(rule: Rule, gs: seq<string>, rest: string)
    requires |gs| == |Delims(rule)|
    requires forall i :: 0 <= i < |gs| ==> Shortest(gs[i], Delims(rule)[i])
    ensures MatchAt(rule, Open(rule) + Layout(gs, Delims(rule)) + rest)
            == Some((gs, |Open(rule)| + |Layout(gs, Delims(rule))|))
  {
    var o, ds := Open(rule), Delims(rule);
    var lay := Layout(gs, ds);
    ConcatSlices(o, lay, rest);
    MatchAtLayout(rule, o + lay + rest, gs);
  }

  lemma MatchAtLayout(rule: Rule, s: string, gs: seq<string>)
    requires |gs| == |Delims(rule)|
    requires forall i :: 0 <= i < |gs| ==> Shortest(gs[i], Delims(rule)[i])
    requires OccursAt(s, 0, Open(rule))
    requires var n := |Open(rule)|; var lay := Layout(gs, Delims(rule));
             n + |lay| <= |s| && s[n..n + |lay|] == lay
    ensures MatchAt(rule, s) == Some((gs, |Open(rule)| + |Layout(gs, Delims(rule))|))
  {
    MatchGroupsOfLayout(s, |Open(rule)|, Delims(rule), gs);
  }

  lemma ConcatSlices(a: string, b: string, c: string)
    ensures OccursAt(a + b + c, 0, a)
    ensures (a + b + c)[|a|..|a| + |b|] == b
    ensures (a + b + c)[|a| + |b|..] == c
  {
    assert (a + b + c)[0..|a|] == a;
  }

  /** Shortest groups laid out with their delimiters are what the lazy groups capture. */
  lemma MatchGroupsOfLayout(s: string, pos: nat, ds: seq<string>, gs: seq<string>)
    requires |gs| == |ds|
    requires forall i :: 0 <= i < |ds| ==> Shortest(gs[i], ds[i])
    requires pos + |Layout(gs, ds)| <= |s| && s[pos..pos + |Layout(gs, ds)|] == Layout(gs, ds)
    ensures MatchGroups(s, pos, ds) == Some((gs, pos + |Layout(gs, ds)|))
  {
    LayoutIsLazy(s, pos, ds, gs);
    MatchGroupsIsLazy(s, pos, ds, gs, pos + |Layout(gs, ds)|);
  }

  lemma ReplaceAllAtMatch(rule: Rule, s: string, gs: seq<string>, end: nat)
    requires s != [] && MatchAt(rule, s) == Some((gs, end))
    ensures |gs| == |Delims(rule)| && end <= |s|
    ensures ReplaceAll(rule, s) == Render(rule, gs) + ReplaceAll(rule, s[end..])
  {
  }

  /** Text whose characters cannot start a match is copied as it is, and the scan goes on after it. */
  lemma {:induction false} ReplaceAllSkipsPlain(rule: Rule, p: string, q: string)
    requires Open(rule)[0] !in p
    ensures ReplaceAll(rule, p + q) == p + ReplaceAll(rule, q)
    decreases |p|
  {
    if p != [] {
      var s := p + q;
      assert s[0] == p[0];
      assert !OccursAt(s, 0, Open(rule)) by {
        if |Open(rule)| <= |s| {
          assert s[..|Open(rule)|][0] == p[0];
        }
      }
      ReplaceAllNoMatchHead(rule, s);
      assert s[1..] == p[1..] + q;
      ReplaceAllSkipsPlain(rule, p[1..], q);
      assert p == [p[0]] + p[1..];
    } else {
      assert p + q == q;
    }
  }

  lemma ReplaceAllNoMatchHead(rule: Rule, s: string)
    requires s != [] && !OccursAt(s, 0, Open(rule))
    ensures ReplaceAll(rule, s) == [s[0]] + ReplaceAll(rule, s[1..])
  {
  }

  /** Text in which the opening literal never stands is left unchanged. */
  lemma {:induction false} ReplaceAllWithoutOpen(rule: Rule, s: string)
    requires forall k :: !OccursAt(s, k, Open(rule))
    ensures ReplaceAll(rule, s) == s
    decreases |s|
  {
    if s != [] {
      assert !OccursAt(s, 0, Open(rule));
      forall k ensures !OccursAt(s[1..], k, Open(rule)) {
        assert !OccursAt(s, k + 1, Open(rule));
        if 0 <= k && k + |Open(rule)| <= |s| - 1 {
          assert s[1..][k..k + |Open(rule)|] == s[k + 1..k + 1 + |Open(rule)|];
        }
      }
      ReplaceAllWithoutOpen(rule, s[1..]);
    }
  }

  /** A rule with two groups rewrites a head match whose groups are as short as possible. */
  lemma RewriteTwo(rule: Rule, o: string, d0: string, d1: string, g0: string, g1: string, rest: string)
    requires Open(rule) == o && Delims(rule) == [d0, d1]
    requires Shortest(g0, d0) && Shortest(g1, d1)
    ensures ReplaceAll(rule, o + g0 + d0 + g1 + d1 + rest) == Render(rule, [g0, g1]) + ReplaceAll(rule, rest)
  {
    var gs, ds := [g0, g1], Delims(rule);
    var s := o + g0 + d0 + g1 + d1 + rest;
    assert s == Open(rule) + Layout(gs, ds) + rest by {
      LayoutOfTwo(g0, d0, g1, d1);
    }
    assert forall i :: 0 <= i < |gs| ==> Shortest(gs[i], ds[i]) by {
      assert gs[0] == g0 && gs[1] == g1 && ds[0] == d0 && ds[1] == d1;
    }
    RewriteHead(rule, gs, rest);
  }

  lemma LayoutOfTwo(g0: string, d0: string, g1: string, d1: string)
    ensures Layout([g0, g1], [d0, d1]) == g0 + d0 + g1 + d1
  {
    assert [g0, g1][1..] == [g1] && [d0, d1][1..] == [d1];
    assert Layout([g1], [d1]) == g1 + d1 + "" by {
      assert [g1][1..] == [] && [d1][1..] == [];
    }
  }

  /** `[url=T]L[/url]` becomes `[L](T)`, with `T` ending at the first `]` and `L` at the first `[/url]`. */
  lemma UrlRewrite(target: string, text: string, rest: string)
    requires ']' !in target
    requires Shortest(text, "[/url]")
    ensures ReplaceAll(UrlTag, "[url=" + target + "]" + text + "[/url]" + rest)
            == "[" + text + "](" + target + ")" + ReplaceAll(UrlTag, rest)
  {
    ShortestWithoutLead(target, "]");
    RewriteTwo(UrlTag, "[url=", "]", "[/url]", target, text, rest);
  }

  /** `<a href="T">L</a>` becomes `[L](T)`, with `T` ending at the first `">` and `L` at the first `</a>`. */
  lemma AnchorRewrite(target: string, text: string, rest: string)
    requires Shortest(target, "\">")
    requires Shortest(text, "</a>")
    ensures ReplaceAll(AnchorTag, "<a href=\"" + target + "\">" + text + "</a>" + rest)
            == "[" + text + "](" + target + ")" + ReplaceAll(AnchorTag, rest)
  {
    RewriteTwo(AnchorTag, "<a href=\"", "\">", "</a>", target, text, rest);
  }

  /** `[code]B[/code]` becomes a fenced `plaintext` block around `B`, with `B` ending at the first `[/code]`. */
  lemma CodeRewrite(body: string, rest: string)
    requires Shortest(body, "[/code]")
    ensures ReplaceAll(CodeTag, "[code]" + body + "[/code]" + rest)
            == "  \n```plaintext\n" + body + "\n```  \n" + ReplaceAll(CodeTag, rest)
  {
    var gs := [body];
    var ds := Delims(CodeTag);
    assert Layout(gs, ds) == body + "[/code]" by {
      assert Layout(gs[1..], ds[1..]) == "";
      assert Layout(gs, ds) == body + "[/code]" + "";
    }
    RewriteHead(CodeTag, gs, rest);
    assert "[code]" + body + "[/code]" + rest == Open(CodeTag) + Layout(gs, Delims(CodeTag)) + rest;
  }

  /** Text without brackets or angle brackets only gets its first newline turned into a hard break. */
  lemma PlainTextOnlyGetsBreak(s: string)
    requires '[' !in s && '<' !in s
    ensures Prepare(s) == FirstBreak(s)
  {
    var b := FirstBreak(s);
    assert '[' !in b && '<' !in b;
    WithoutOpenUnchanged(UrlTag, b);
    WithoutOpenUnchanged(AnchorTag, b);
    WithoutOpenUnchanged(CodeTag, b);
  }

  /** Text without the first character of the opening tag is left unchanged. */
  lemma WithoutOpenUnchanged(rule: Rule, b: string)
    requires Open(rule)[0] !in b
    ensures ReplaceAll(rule, b) == b
  {
    forall k ensures !OccursAt(b, k, Open(rule)) {
      if 0 <= k && k + |Open(rule)| <= |b| {
        assert b[k..k + |Open(rule)|][0] == b[k];
      }
    }
    ReplaceAllWithoutOpen(rule, b);
  }

  /**
   * A description that is one forum link and nothing else becomes one
   * Markdown link: the anchor and code rewrites that follow leave it alone.
   */
  lemma PrepareLink(target: string, text: string)
    requires '\n' !in target && '\n' !in text
    requires ']' !in target && '[' !in target && '[' !in text
    requires '<' !in target && '<' !in text
    ensures Prepare("[url=" + target + "]" + text + "[/url]") == "[" + text + "](" + target + ")"
  {
    var s := "[url=" + target + "]" + text + "[/url]";
    var u := "[" + text + "](" + target + ")";
    assert FirstBreak(s) == s by {
      assert '\n' !in s by {
        assert s == "[url=" + (target + "]" + text + "[/url]");
      }
    }
    LinkUrlStage(target, text);
    LinkLaterStages(target, text);
  }

  lemma LinkUrlStage(target: string, text: string)
    requires ']' !in target && '[' !in text
    ensures ReplaceAll(UrlTag, "[url=" + target + "]" + text + "[/url]") == "[" + text + "](" + target + ")"
  {
    ShortestWithoutLead(text, "[/url]");
    UrlRewrite(target, text, "");
    assert "[url=" + target + "]" + text + "[/url]" + "" == "[url=" + target + "]" + text + "[/url]";
    assert "[" + text + "](" + target + ")" + "" == "[" + text + "](" + target + ")";
  }

  lemma LinkLaterStages(target: string, text: string)
    requires '[' !in target && '[' !in text && '<' !in target && '<' !in text
    ensures var u := "[" + text + "](" + target + ")";
            ReplaceAll(AnchorTag, u) == u && ReplaceAll(CodeTag, u) == u
  {
    var u := "[" + text + "](" + target + ")";
    assert u[1..] == text + "](" + target + ")";
    assert '<' !in u && '[' !in u[1..];
    ReplaceAllSkipsPlain(AnchorTag, u, "");
    CodeOpenWithoutClose(u);
    ReplaceAllSkipsPlain(CodeTag, u[1..], "");
    assert u + "" == u && u[1..] + "" == u[1..];
    assert [u[0]] + u[1..] == u;
  }

  /**
   * Text with no `[` after its first character holds no `[/code]`, so even a
   * `[code]` at its head is not rewritten and the scan moves on.
   */
  lemma CodeOpenWithoutClose(s: string)
    requires s != [] && '[' !in s[1..]
    ensures ReplaceAll(CodeTag, s) == [s[0]] + ReplaceAll(CodeTag, s[1..])
  {
    NoCloseAfterHead(s, "[/code]");
    NoFirstDelim(CodeTag, "[/code]", s);
  }

  /** A delimiter starting with `[` stands nowhere after the head of text with no `[` there. */
  lemma NoCloseAfterHead(s: string, d: string)
    requires s != [] && '[' !in s[1..] && d != [] && d[0] == '['
    ensures forall k :: 1 <= k ==> !OccursAt(s, k, d)
  {
    forall k | 1 <= k
      ensures !OccursAt(s, k, d)
    {
      if k + |d| <= |s| {
        assert s[k..k + |d|][0] == s[1..][k - 1];
      }
    }
  }

  /** When the first delimiter stands nowhere after the opening tag, the head is not rewritten. */
  lemma NoFirstDelim(rule: Rule, d: string, s: string)
    requires s != [] && Delims(rule) != [] && Delims(rule)[0] == d
    requires forall k :: 1 <= k ==> !OccursAt(s, k, d)
    ensures ReplaceAll(rule, s) == [s[0]] + ReplaceAll(rule, s[1..])
  {
    if OccursAt(s, 0, Open(rule)) {
      assert FindFrom(s, d, |Open(rule)|).None?;
      assert MatchGroups(s, |Open(rule)|, Delims(rule)).None?;
    } else {
      ReplaceAllNoMatchHead(rule, s);
    }
  }


  /**
   * The first newline is rewritten before the code rewrite runs, so when it
   * stands inside a `[code]` body its two spaces end up inside the fenced block.
   */
  lemma BreakInsideCode(a: string, b: string)
    requires '\n' !in a && '[' !in a && '[' !in b && '<' !in a && '<' !in b
    ensures Prepare("[code]" + a + "\n" + b + "[/code]")
            == "  \n```plaintext\n" + a + "  \n" + b + "\n```  \n"
  {
    var body := a + "  \n" + b;
    assert '[' !in body && '<' !in body;
    CodeBreakStage(a, b);
    CodeUrlAnchorStages(body);
    CodeFenceStage(body);
    FencedBody(a, b);
  }

  lemma FencedBody(a: string, b: string)
    ensures "  \n```plaintext\n" + (a + "  \n" + b) + "\n```  \n"
            == "  \n```plaintext\n" + a + "  \n" + b + "\n```  \n"
  {
  }

  lemma CodeFenceStage(body: string)
    requires '[' !in body
    ensures ReplaceAll(CodeTag, "[code]" + body + "[/code]") == "  \n```plaintext\n" + body + "\n```  \n"
  {
    var fenced := "  \n```plaintext\n" + body + "\n```  \n";
    ShortestWithoutLead(body, "[/code]");
    CodeRewrite(body, "");
    assert "[code]" + body + "[/code]" == "[code]" + body + "[/code]" + "";
    assert fenced + "" == fenced;
  }

  lemma CodeBreakStage(a: string, b: string)
    requires '\n' !in a
    ensures FirstBreak("[code]" + a + "\n" + b + "[/code]") == "[code]" + (a + "  \n" + b) + "[/code]"
  {
    var s := "[code]" + a + "\n" + b + "[/code]";
    var i := 6 + |a|;
    assert s[..i] == "[code]" + a;
    assert s[i] == '\n';
    FirstBreakAt(s, i);
    assert s[i..] == "\n" + b + "[/code]";
  }

  lemma CodeUrlAnchorStages(body: string)
    requires '[' !in body && '<' !in body
    ensures var c := "[code]" + body + "[/code]";
            ReplaceAll(UrlTag, c) == c && ReplaceAll(AnchorTag, c) == c
  {
    CodeUrlStage(body);
    CodeAnchorStage(body);
  }

  lemma CodeUrlStage(body: string)
    requires '[' !in body
    ensures ReplaceAll(UrlTag, "[code]" + body + "[/code]") == "[code]" + body + "[/code]"
  {
    var t1, t2 := "[code]" + body, "[/code]";
    assert t1[1..] == "code]" + body;
    SkipTag(UrlTag, "[url=", t1, t2);
    SkipTag(UrlTag, "[url=", t2, []);
    assert t2 + [] == t2;
  }

  lemma CodeAnchorStage(body: string)
    requires '<' !in body
    ensures ReplaceAll(AnchorTag, "[code]" + body + "[/code]") == "[code]" + body + "[/code]"
  {
    var c := "[code]" + body + "[/code]";
    assert '<' !in c;
    ReplaceAllSkipsPlain(AnchorTag, c, "");
    assert c + "" == c;
  }

  /**
   * Text that starts with the first character of the opening literal but not
   * its second, and holds no other copy of the first, is copied unchanged.
   */
  lemma SkipTag(rule: Rule, o: string, t: string, rest: string)
    requires Open(rule) == o
    requires |t| >= 2 && t[0] == o[0] && t[1] != o[1] && o[0] !in t[1..]
    ensures ReplaceAll(rule, t + rest) == t + ReplaceAll(rule, rest)
  {
    var s := t + rest;
    assert !OccursAt(s, 0, o) by {
      if |o| <= |s| {
        assert s[0..|o|][1] == t[1];
      }
    }
    var r := ReplaceAll(rule, rest);
    calc {
      ReplaceAll(rule, s);
    == { ReplaceAllNoMatchHead(rule, s); }
      [s[0]] + ReplaceAll(rule, s[1..]);
    == { assert s[1..] == t[1..] + rest; }
      [t[0]] + ReplaceAll(rule, t[1..] + rest);
    == { ReplaceAllSkipsPlain(rule, t[1..], rest); }
      [t[0]] + (t[1..] + r);
    == { assert [t[0]] + t[1..] == t; }
      t + r;
    }
  }
}
