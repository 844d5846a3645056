/** The rewriting of Obsidian wiki links in `convertNote` (pkg/omh.go):
    `ReplaceAllStringFunc` with the expression `\[\[.+?\]\]` and a callback
    that looks the target up in the link map, as an explicit scanner. */
module WikiLinks {
  import opened Wrappers
  import opened Texts

  predicate OpensAt(s: string, i: nat)
  {
    i + 2 <= |s| && s[i] == '[' && s[i + 1] == '['
  }

  predicate ClosesAt(s: string, k: nat)
  {
    k + 2 <= |s| && s[k] == ']' && s[k + 1] == ']'
  }

  /** The lazy `.+?` followed by `\]\]`, with the inner text starting at
      `start` and already known to run, newline-free, up to `k`: the first
      `]]` wins, a newline or the end of the text ends the attempt. Yields
      the index just after the closing brackets. */
  function CloseFrom(s: string, start: nat, k: nat): (r: Option<nat>)
    requires start < k <= |s|
    ensures r.Some? ==> k + 2 <= r.value <= |s|
    decreases |s| - k
  {
    if ClosesAt(s, k) then Some(k + 2)
    else if k < |s| && s[k] != '\n' then CloseFrom(s, start, k + 1)
    else None
  }

  /** What the search found: `]]` at its end, no newline in the inner text
      and no earlier `]]` from `k` on. */
  lemma {:induction false} CloseFromShape(s: string, start: nat, k: nat)
    requires start < k <= |s|
    requires forall j :: start <= j < k ==> s[j] != '\n'
    ensures var r := CloseFrom(s, start, k);
      r.Some? ==>
        && ClosesAt(s, r.value - 2)
        && (forall j :: start <= j < r.value - 2 ==> s[j] != '\n')
        && (forall j :: k <= j < r.value - 2 ==> !ClosesAt(s, j))
    decreases |s| - k
  {
    if !ClosesAt(s, k) && k < |s| && s[k] != '\n' {
      CloseFromShape(s, start, k + 1);
    }
  }

  /** The end of the token that starts at `i`, if one does: `[[`, then at
      least one character other than a newline, then the first `]]`. */
  function TokenEnd(s: string, i: nat): (r: Option<nat>)
    ensures r.Some? ==> i + 5 <= r.value <= |s|
  {
    if OpensAt(s, i) && i + 2 < |s| && s[i + 2] != '\n' then CloseFrom(s, i + 2, i + 3) else None
  }

  /** A token found is `[[`, a newline-free inner text holding no `]]`, and
      `]]`. */
  lemma TokenEndShape(s: string, i: nat)
    ensures var r := TokenEnd(s, i);
      r.Some? ==>
        && OpensAt(s, i) && ClosesAt(s, r.value - 2)
        && (forall j :: i + 2 <= j < r.value - 2 ==> s[j] != '\n')
        && (forall j :: i + 3 <= j < r.value - 2 ==> !ClosesAt(s, j))
  {
    if OpensAt(s, i) && i + 2 < |s| && s[i + 2] != '\n' {
      CloseFromShape(s, i + 2, i + 3);
    }
  }

  /** The callback: `inner` split at its first `|` into target and title
      (both the whole of it without one); a known target becomes a Markdown
      link below `/subPath/`, an unknown one its bare title. */
  function Replace(inner: string, links: map<string, string>, subPath: string): string
  {
    var i := IndexOf(inner, '|');
    var (link, title) := if i < |inner| then (inner[..i], inner[i + 1..]) else (inner, inner);
    if link in links then "[" + title + "](/" + subPath + "/" + links[link] + ")" else title
  }

  /** Without `|` the whole inner text is both target and title. */
  lemma ReplaceWhole(inner: string, links: map<string, string>, subPath: string)
    requires '|' !in inner
    ensures Replace(inner, links, subPath)
      == if inner in links then "[" + inner + "](/" + subPath + "/" + links[inner] + ")" else inner
  {
    assert IndexOf(inner, '|') == |inner|;
  }

  /** With `|`, the text before the first one is the target and the text
      after it the title, whatever further `|` the title holds. */
  lemma ReplaceTitled(target: string, title: string, links: map<string, string>, subPath: string)
    requires '|' !in target
    ensures Replace(target + "|" + title, links, subPath)
      == if target in links then "[" + title + "](/" + subPath + "/" + links[target] + ")" else title
  {
    var inner := target + "|" + title;
    IndexOfAfter(target, '|', title);
    assert inner[..|target|] == target && inner[|target| + 1..] == title;
  }

  /** `ReplaceAllStringFunc` with callback `f`, given the inner text of
      each token: the leftmost token is replaced, the text before it copied,
      and the scan resumes after it, so what the callback produced is never
      scanned again. */
  function ReplaceAll(s: string, f: string -> string): string
    decreases |s|
  {
    if s == [] then ""
    else match TokenEnd(s, 0)
      case Some(e) => f(s[2..e - 2]) + ReplaceAll(s[e..], f)
      case None => [s[0]] + ReplaceAll(s[1..], f)
  }

  /** The callback of `convertNote`. */
  function Callback(links: map<string, string>, subPath: string): string -> string
  {
    inner => Replace(inner, links, subPath)
  }

  /** The wiki links of a note's content replaced through the link map. */
  function Rewrite(s: string, links: map<string, string>, subPath: string): string
  {
    ReplaceAll(s, Callback(links, subPath))
  }

  /** The split of the inner text: without `|` target and title are the
      whole text; otherwise the target holds no `|` and target, `|` and title
      give the inner text back. */
  lemma SplitInner(inner: string)
    ensures var i := IndexOf(inner, '|');
      (i == |inner| <==> '|' !in inner)
      && (i < |inner| ==> inner[..i] + "|" + inner[i + 1..] == inner && '|' !in inner[..i])
  {
    var i := IndexOf(inner, '|');
    SplitAround(inner, i);
    NoneBefore(inner, i);
  }

  /** Cutting out the character at `i` and putting it back. */
  lemma SplitAround(s: string, i: nat)
    requires i <= |s|
    requires i < |s| ==> s[i] == '|'
    ensures i < |s| ==> s[..i] + "|" + s[i + 1..] == s
  {
    if i < |s| {
      assert s == s[..i] + [s[i]] + s[i + 1..];
    }
  }

  /** No `|` before the first one. */
  lemma NoneBefore(s: string, i: nat)
    requires i <= |s| && (i < |s| ==> s[i] == '|')
    requires forall k :: 0 <= k < i ==> s[k] != '|'
    ensures '|' !in s[..i]
    ensures i == |s| <==> '|' !in s
  {
    assert forall k :: 0 <= k < i ==> s[..i][k] == s[k];
  }

  /** Text in which no token starts anywhere is left unchanged. */
  lemma {:induction false} RewriteNoToken(s: string, f: string -> string)
    requires forall j :: 0 <= j < |s| ==> TokenEnd(s, j).None?
    ensures ReplaceAll(s, f) == s
    decreases |s|
  {
    if s != [] {
      assert TokenEnd(s, 0).None?;
      forall j | 0 <= j < |s[1..]| ensures TokenEnd(s[1..], j).None? {
        TokenEndShift(s, j);
        assert TokenEnd(s, j + 1).None?;
      }
      RewriteNoToken(s[1..], f);
    }
  }

  /** Dropping the first character shifts the search for `]]` by one. */
  lemma {:induction false} CloseFromShift(s: string, start: nat, k: nat)
    requires s != [] && start < k <= |s| - 1
    ensures CloseFrom(s[1..], start, k).None? <==> CloseFrom(s, start + 1, k + 1).None?
    ensures CloseFrom(s, start + 1, k + 1).Some? ==>
      CloseFrom(s[1..], start, k) == Some(CloseFrom(s, start + 1, k + 1).value - 1)
    decreases |s| - k
  {
    var t := s[1..];
    assert ClosesAt(t, k) <==> ClosesAt(s, k + 1);
    if !ClosesAt(t, k) && k < |t| {
      assert t[k] == s[k + 1];
      if t[k] != '\n' {
        CloseFromShift(s, start, k + 1);
      }
    }
  }

  /** Dropping the first character shifts every token by one. */
  lemma TokenEndShift(s: string, j: nat)
    requires s != []
    ensures TokenEnd(s[1..], j).None? <==> TokenEnd(s, j + 1).None?
    ensures TokenEnd(s, j + 1).Some? ==> TokenEnd(s[1..], j) == Some(TokenEnd(s, j + 1).value - 1)
  {
    var t := s[1..];
    assert OpensAt(t, j) <==> OpensAt(s, j + 1);
    if OpensAt(t, j) && j + 2 < |t| {
      assert t[j + 2] == s[j + 3];
      if t[j + 2] != '\n' {
        CloseFromShift(s, j + 2, j + 3);
      }
    }
  }

  /** A first character where no token starts is copied. */
  lemma SkipFirst(s: string, f: string -> string)
    requires s != [] && TokenEnd(s, 0).None?
    ensures ReplaceAll(s, f) == [s[0]] + ReplaceAll(s[1..], f)
  {
  }

  /** Text without `[` before the rest is copied unchanged. */
  lemma {:induction false} PlainPrefix(pre: string, rest: string, f: string -> string)
    requires '[' !in pre
    ensures ReplaceAll(pre + rest, f) == pre + ReplaceAll(rest, f)
    decreases |pre|
  {
    if pre != [] {
      var s := pre + rest;
      assert s[0] == pre[0] && !OpensAt(s, 0);
      assert s[1..] == pre[1..] + rest;
      SkipFirst(s, f);
      PlainPrefix(pre[1..], rest, f);
      assert pre == [pre[0]] + pre[1..];
    } else {
      assert pre + rest == rest;
    }
  }

  /** The search for `]]` stops at the first one, at `c`. */
  lemma {:induction false} CloseAtEnd(s: string, start: nat, k: nat, c: nat)
    requires start < k <= c && ClosesAt(s, c)
    requires forall j :: start <= j < c ==> s[j] != '\n'
    requires forall j :: k <= j < c ==> !ClosesAt(s, j)
    ensures CloseFrom(s, start, k) == Some(c + 2)
    decreases c - k
  {
    if k < c {
      CloseAtEnd(s, start, k + 1, c);
    }
  }

  /** A token at the start: `[[`, an inner text on one line without `]`,
      `]]`; it is replaced by the callback and the rest scanned on its own. */
  lemma TokenFirst(inner: string, post: string, f: string -> string)
    requires inner != "" && '\n' !in inner && ']' !in inner
    ensures ReplaceAll("[[" + inner + "]]" + post, f) == f(inner) + ReplaceAll(post, f)
  {
    var s := "[[" + inner + "]]" + post;
    var c := 2 + |inner|;
    assert s[2..c] == inner;
    assert s[c] == ']' && s[c + 1] == ']';
    forall j | 2 <= j < c ensures s[j] != '\n' && s[j] != ']' {
      assert s[j] == inner[j - 2];
    }
    CloseAtEnd(s, 2, 3, c);
    assert TokenEnd(s, 0) == Some(c + 2);
    assert s[c + 2..] == post;
  }

  /** The step of `ReplaceAllStringFunc`: when the leftmost token starts at
      `i` and ends at `e`, the text before it is copied, the token is
      replaced by the callback on its inner text, and scanning resumes right
      after it, so nothing the callback produced is scanned again. */
  lemma RewriteToken(s: string, i: nat, e: nat, f: string -> string)
    requires TokenEnd(s, i) == Some(e)
    requires forall j :: 0 <= j < i ==> TokenEnd(s, j).None?
    ensures i + 5 <= e <= |s|
    ensures ReplaceAll(s, f) == s[..i] + f(s[i + 2..e - 2]) + ReplaceAll(s[e..], f)
  {
    CopyTokenFree(s, i, f);
    TokenAtDrop(s, i, e, f);
    Texts.AppendAssoc(s[..i], f(s[i + 2..e - 2]), ReplaceAll(s[e..], f));
  }

  /** Text in which no token starts is copied unchanged before the rest. */
  lemma {:induction false} CopyTokenFree(s: string, i: nat, f: string -> string)
    requires i <= |s|
    requires forall j :: 0 <= j < i ==> TokenEnd(s, j).None?
    ensures ReplaceAll(s, f) == s[..i] + ReplaceAll(s[i..], f)
    decreases i
  {
    if i == 0 {
      assert s[..0] + ReplaceAll(s, f) == ReplaceAll(s, f);
    } else {
      var t := s[1..];
      SkipFirst(s, f);
      forall j | 0 <= j < i - 1 ensures TokenEnd(t, j).None? {
        TokenEndShift(s, j);
      }
      CopyTokenFree(t, i - 1, f);
      assert t[i - 1..] == s[i..];
      Texts.AppendAssoc([s[0]], t[..i - 1], ReplaceAll(s[i..], f));
      assert [s[0]] + t[..i - 1] == s[..i];
    }
  }

  /** The text from a token on starts with its replacement. */
  lemma TokenAtDrop(s: string, i: nat, e: nat, f: string -> string)
    requires TokenEnd(s, i) == Some(e)
    ensures ReplaceAll(s[i..], f) == f(s[i + 2..e - 2]) + ReplaceAll(s[e..], f)
  {
    TokenEndDrop(s, i);
    assert s[i..][2..e - i - 2] == s[i + 2..e - 2] && s[i..][e - i..] == s[e..];
  }

  /** The token found at `i` is the one found at the start of the text from `i` on. */
  lemma {:induction false} TokenEndDrop(s: string, i: nat)
    requires TokenEnd(s, i).Some?
    ensures i <= |s| && TokenEnd(s[i..], 0) == Some(TokenEnd(s, i).value - i)
    decreases i
  {
    if i > 0 {
      TokenEndShift(s, i - 1);
      TokenEndDrop(s[1..], i - 1);
      assert s[1..][i - 1..] == s[i..];
    }
  }

  /** A well-formed token after text without `[`: the text before is
      copied and the token replaced. */
  lemma PlainBeforeToken(pre: string, inner: string, post: string, f: string -> string)
    requires '[' !in pre
    requires inner != "" && '\n' !in inner && ']' !in inner
    ensures ReplaceAll(pre + "[[" + inner + "]]" + post, f) == pre + f(inner) + ReplaceAll(post, f)
  {
    assert pre + "[[" + inner + "]]" + post == pre + ("[[" + inner + "]]" + post);
    PlainPrefix(pre, "[[" + inner + "]]" + post, f);
    TokenFirst(inner, post, f);
  }

  /** A known target becomes a link below the sub-path; the text around it
      is kept. */
  lemma LinkExample(s: string, links: map<string, string>)
    requires s == "a [[B]] c" && links == map["B" := "b/"]
    ensures Rewrite(s, links, "p") == "a [B](/p/b/) c"
  {
    var inner := "B";
    assert s == "a " + "[[" + inner + "]]" + " c";
    PlainBeforeToken("a ", inner, " c", Callback(links, "p"));
    KnownTargetExample(inner, links);
    PlainTailExample(" c", links);
    LinkExampleText("a ", Replace(inner, links, "p"), Rewrite(" c", links, "p"));
  }

  lemma PlainTailExample(t: string, links: map<string, string>)
    requires t == " c"
    ensures Rewrite(t, links, "p") == " c"
  {
    RewriteNoToken(t, Callback(links, "p"));
  }

  lemma LinkExampleText(pre: string, link: string, post: string)
    requires pre == "a " && link == "[B](/p/b/)" && post == " c"
    ensures pre + link + post == "a [B](/p/b/) c"
  {
  }

  /** The callback on a known target without a title. */
  lemma KnownTargetExample(inner: string, links: map<string, string>)
    requires inner == "B" && links == map["B" := "b/"]
    ensures Replace(inner, links, "p") == "[B](/p/b/)"
  {
    assert IndexOf(inner, '|') == 1;
  }

  /** An unknown target leaves only the title after the `|`. */
  lemma MissingExample(s: string)
    requires s == "[[M|T]]"
    ensures Rewrite(s, map[], "p") == "T"
  {
    var inner := "M|T";
    assert IndexOf(inner, '|') == 1;
    assert s == "[[" + inner + "]]" + "";
    TokenFirst(inner, "", Callback(map[], "p"));
  }

  /** The first `]]` closes the token, and the brackets the callback leaves
      behind are not scanned again. */
  lemma NotRescannedExample(s: string)
    requires s == "[[x|[[y]]]]"
    ensures Rewrite(s, map[], "p") == "[[y]]"
  {
    var inner := "x|[[y";
    assert IndexOf(inner, '|') == 1;
    assert s == "[[" + inner + "]]" + "]]";
    TokenFirst(inner, "]]", Callback(map[], "p"));
    RewriteNoToken("]]", Callback(map[], "p"));
  }
}
