/**
 The filter of lib/serialConsole.ts that drops virsh's two-line banner from the start of a console
 session, however its output is cut into chunks. Strings are sequences of JavaScript's 16-bit units.
 */
module BannerFilter {
  import opened Wrappers

  function BannerLine(i: nat): (word: string)
    requires i < 2
    ensures '\n' !in word
  {
    if i == 0 then "Connected to domain " else "Escape character is "
  }

  const GIVE_UP: nat := 512

  // ----- The regular expression

  predicate EndsLine(c: char) {
    c == '\r' || c == '\n'
  }

  /** How many characters of s come before the first of '\r' and '\n'. */
  function Run(s: string): (n: nat)
    ensures n <= |s| && (forall i :: 0 <= i < n ==> !EndsLine(s[i])) && (n < |s| ==> EndsLine(s[n]))
  {
    if s == "" || EndsLine(s[0]) then 0 else 1 + Run(s[1..])
  }

  /** `word[^\r\n]*\r?\n` at the start of s: how long the match is. */
  function MatchLine(s: string, word: string): (m: Option<nat>)
    ensures m.Some? ==> |word| < m.value <= |s| && word <= s && s[m.value - 1] == '\n'
  {
    if !(word <= s) then None
    else
      var k := |word| + Run(s[|word|..]);
      if k < |s| && s[k] == '\n' then Some(k + 1)
      else if k + 1 < |s| && s[k] == '\r' && s[k + 1] == '\n' then Some(k + 2)
      else None
  }

  /** BANNER at the start of s: how long the match is. */
  function MatchBanner(s: string): (m: Option<nat>)
    ensures m.Some? ==> 0 < m.value <= |s|
  {
    match MatchLine(s, BannerLine(0))
    case None => None
    case Some(k) =>
      match MatchLine(s[k..], BannerLine(1))
      case None => None
      case Some(l) => Some(k + l)
  }

  function Split(s: string): (lines: seq<string>)
    ensures |lines| > 0
    decreases |s|
  {
    if '\n' !in s then [s] else var i := FirstNewline(s); [s[..i]] + Split(s[i + 1..])
  }

  function FirstNewline(s: string): (i: nat)
    requires '\n' in s
    ensures i < |s| && s[i] == '\n' && '\n' !in s[..i]
  {
    if s[0] == '\n' then 0 else
      assert s == [s[0]] + s[1..];
      var i := 1 + FirstNewline(s[1..]);
      assert s[..i] == [s[0]] + s[1..][..i - 1];
      i
  }

  predicate CouldBeBanner(head: string) {
    var lines := Split(head);
    if |lines| > 2 && lines[2] != "" then false
    else forall i :: 0 <= i < |lines| && i < 2 ==> lines[i] <= BannerLine(i) || BannerLine(i) <= lines[i]
  }

  // ----- The filter

  /** What is passed on and what is held back (None: no longer waiting) after one more chunk. */
  function PushResult(head: Option<string>, chunk: string): (string, Option<string>) {
    if head == None then (chunk, None)
    else
      var all := head.value + chunk;
      match MatchBanner(all)
      case Some(k) => (all[k..], None)
      case None => if |all| > GIVE_UP || !CouldBeBanner(all) then (all, None) else ("", Some(all))
  }

  class Filter {
    var head: Option<string>

    constructor ()
      ensures head == Some("")
    {
      head := Some("");
    }

    method Push(chunk: string) returns (out: string)
      modifies this
      ensures (out, head) == PushResult(old(head), chunk)
    {
      if head == None { return chunk; }
      head := Some(head.value + chunk);
      var m := MatchBanner(head.value);
      if m.Some? {
        out := head.value[m.value..];
        head := None;
        return;
      }
      if |head.value| > GIVE_UP || !CouldBeBanner(head.value) {
        out := head.value;
        head := None;
        return;
      }
      return "";
    }

    method Flush() returns (out: string)
      modifies this
      ensures out == Held(old(head)) && head == None
    {
      if head == None { return ""; }
      out := head.value;
      head := None;
    }
  }

  function Held(head: Option<string>): string {
    if head == None then "" else head.value
  }

  // ----- Whole sessions

  datatype Event = Chunk(text: string) | Flush

  function Input(events: seq<Event>): string {
    if events == [] then ""
    else
      var e := events[|events| - 1];
      Input(events[..|events| - 1]) + if e.Chunk? then e.text else ""
  }

  /** All that has been passed on after these events, and what is held back. */
  function After(events: seq<Event>): (string, Option<string>) {
    if events == [] then ("", Some(""))
    else
      var (out, head) := After(events[..|events| - 1]);
      match events[|events| - 1]
      case Chunk(text) => var (more, head') := PushResult(head, text); (out + more, head')
      case Flush => (out + Held(head), None)
  }

  /** All that the viewers are shown, with the flush at the end of the session. */
  function Shown(events: seq<Event>): string {
    var (out, head) := After(events);
    out + Held(head)
  }

  function Chunks(texts: seq<string>): seq<Event> {
    seq(|texts|, i requires 0 <= i < |texts| => Chunk(texts[i]))
  }

  // ----- The expression on prefixes

  lemma {:induction false} RunOfPrefix(s: string, t: string)
    ensures Run(s) < |s| ==> Run(s + t) == Run(s)
  {
    if s != "" && !EndsLine(s[0]) {
      assert (s + t)[1..] == s[1..] + t;
      RunOfPrefix(s[1..], t);
    }
  }

  /** Once a line matches, more text after it changes nothing. */
  lemma MatchLineExtends(s: string, t: string, word: string)
    requires MatchLine(s, word).Some?
    ensures MatchLine(s + t, word) == MatchLine(s, word)
  {
    RunOfPrefix(s[|word|..], t);
    assert (s + t)[|word|..] == s[|word|..] + t;
  }

  lemma LineWithin(s: string, word: string, n: nat)
    requires MatchLine(s, word).Some? && MatchLine(s, word).value <= n <= |s|
    ensures MatchLine(s[..n], word) == MatchLine(s, word)
  {
    var b := s[..n][|word|..];
    assert s[|word|..] == b + s[n..];
    RunOfPrefix(b, s[n..]);
    assert word <= s[..n];
  }

  /** A line that matches ends in its only newline, so no shorter piece of it matches. */
  lemma LineShape(s: string, word: string, n: nat)
    requires MatchLine(s, word).Some? && n < MatchLine(s, word).value
    requires '\n' !in word
    ensures '\n' !in s[..n] && MatchLine(s[..n], word) == None
    ensures s[..n] <= word || word <= s[..n]
  {
    assert s[..|word|] == word;
    forall i | 0 <= i < n ensures s[i] != '\n' {
      if i >= |word| { assert s[i] == s[|word|..][i - |word|]; } else { assert s[i] == word[i]; }
    }
    if n <= |word| { assert s[..n] == word[..n]; } else { assert s[..n][..|word|] == word; }
  }

  lemma {:induction false} FirstNewlineIs(s: string, i: nat)
    requires i < |s| && s[i] == '\n' && '\n' !in s[..i]
    ensures FirstNewline(s) == i
  {
    if i > 0 {
      assert s[0] == s[..i][0] && s[1..][..i - 1] == s[..i][1..];
      FirstNewlineIs(s[1..], i - 1);
    }
  }

  lemma SplitOnce(u: string, v: string)
    requires '\n' !in u && '\n' !in v
    ensures Split(u) == [u] && Split(u + "\n" + v) == [u, v]
  {
    var s := u + "\n" + v;
    assert s[|u|] == '\n' && s[..|u|] == u && s[|u| + 1..] == v;
    FirstNewlineIs(s, |u|);
  }

  lemma PrefixOfFirstLine(x: string, n: nat)
    requires MatchLine(x, BannerLine(0)).Some? && n < MatchLine(x, BannerLine(0)).value
    ensures CouldBeBanner(x[..n]) && MatchBanner(x[..n]) == None
  {
    hide BannerLine, MatchLine;
    LineShape(x, BannerLine(0), n);
    SplitOnce(x[..n], "");
  }

  lemma PrefixOfSecondLine(x: string, k: nat, n: nat)
    requires MatchLine(x, BannerLine(0)) == Some(k) && MatchLine(x[k..], BannerLine(1)).Some?
    requires k <= n < k + MatchLine(x[k..], BannerLine(1)).value
    ensures CouldBeBanner(x[..n]) && MatchBanner(x[..n]) == None
  {
    hide BannerLine, MatchLine;
    var p, u, r := x[..n], x[..k - 1], x[k..][..n - k];
    LineWithin(x, BannerLine(0), n);
    LineShape(x, BannerLine(0), k - 1);
    LineShape(x[k..], BannerLine(1), n - k);
    assert x[..k] == u + "\n" && p[..k] == x[..k] && p[k..] == r;
    assert p == u + "\n" + r;
    SplitOnce(u, r);
    assert BannerLine(0) <= u;
  }

  /** Every proper prefix of a banner may still become one, and is not one yet. */
  lemma PrefixCouldBeBanner(x: string, n: nat)
    requires MatchBanner(x).Some? && n < MatchBanner(x).value
    ensures CouldBeBanner(x[..n]) && MatchBanner(x[..n]) == None
  {
    hide BannerLine, MatchLine, CouldBeBanner;
    var k := MatchLine(x, BannerLine(0)).value;
    if n < k { PrefixOfFirstLine(x, n); } else { PrefixOfSecondLine(x, k, n); }
  }

  /** A banner stays matched, at its length, whatever comes after it. */
  lemma MatchBannerExtends(s: string, t: string)
    requires MatchBanner(s).Some?
    ensures MatchBanner(s + t) == MatchBanner(s)
  {
    hide BannerLine, MatchLine;
    var k := MatchLine(s, BannerLine(0)).value;
    MatchLineExtends(s, t, BannerLine(0));
    MatchLineExtends(s[k..], t, BannerLine(1));
    assert (s + t)[k..] == s[k..] + t;
  }

  /** A prefix that reaches the banner's end matches it, and no shorter one does. */
  lemma MatchBannerOfPrefix(x: string, n: nat)
    requires MatchBanner(x).Some? && n <= |x|
    ensures MatchBanner(x[..n]) == if n < MatchBanner(x).value then None else MatchBanner(x)
  {
    hide BannerLine, MatchLine, CouldBeBanner;
    if n < MatchBanner(x).value {
      PrefixCouldBeBanner(x, n);
    } else {
      var k := MatchLine(x, BannerLine(0)).value;
      LineWithin(x, BannerLine(0), n);
      LineWithin(x[k..], BannerLine(1), n - k);
      assert x[..n][k..] == x[k..][..n - k];
    }
  }

  // ----- What the expression and the wait for it are, told without them

  predicate OneLine(s: string) {
    forall i :: 0 <= i < |s| ==> s[i] != '\r' && s[i] != '\n'
  }

  /** A word, any text on the same line, and the end of the line. */
  ghost predicate IsLine(line: string, word: string) {
    exists text, end :: OneLine(text) && (end == "\n" || end == "\r\n") && line == word + text + end
  }

  lemma {:induction false} RunOfLine(text: string, rest: string)
    requires OneLine(text) && rest != "" && EndsLine(rest[0])
    ensures Run(text + rest) == |text|
  {
    if text != "" {
      assert (text + rest)[1..] == text[1..] + rest;
      RunOfLine(text[1..], rest);
    } else {
      assert text + rest == rest;
    }
  }

  lemma MatchedIsLine(s: string, word: string)
    requires MatchLine(s, word).Some?
    ensures IsLine(s[..MatchLine(s, word).value], word)
  {
    var k := MatchLine(s, word).value;
    var t := s[|word|..];
    var text, end := t[..Run(t)], s[|word| + Run(t)..k];
    assert end == "\n" || end == "\r\n";
    assert s[..k] == word + text + end;
  }

  lemma LineIsMatched(word: string, text: string, end: string, more: string)
    requires OneLine(text) && (end == "\n" || end == "\r\n")
    ensures MatchLine(word + text + end + more, word) == Some(|word| + |text| + |end|)
  {
    var s, rest := word + text + end + more, end + more;
    assert s == word + (text + rest) && s[|word|..] == text + rest;
    RunOfLine(text, rest);
    assert s[|word| + |text|..] == rest;
    assert s[|word| + |text|] == rest[0] && word <= s;
    if end == "\r\n" { assert s[|word| + |text| + 1] == rest[1]; }
  }

  lemma MatchLineIs(s: string, word: string, k: nat)
    requires k <= |s|
    ensures MatchLine(s, word) == Some(k) <==> IsLine(s[..k], word)
  {
    if MatchLine(s, word) == Some(k) { MatchedIsLine(s, word); }
    hide MatchLine, OneLine;
    if IsLine(s[..k], word) {
      var text, end :| OneLine(text) && (end == "\n" || end == "\r\n") && s[..k] == word + text + end;
      LineIsMatched(word, text, end, s[k..]);
      assert s == s[..k] + s[k..];
    }
  }

  /** A banner is the line that names the domain and the line that names the escape character. */
  ghost predicate IsBanner(x: string) {
    exists a, b :: IsLine(a, "Connected to domain ") && IsLine(b, "Escape character is ") && x == a + b
  }

  lemma MatchedIsBanner(s: string)
    requires MatchBanner(s).Some?
    ensures IsBanner(s[..MatchBanner(s).value])
  {
    hide MatchLine, IsLine;
    var first, second := "Connected to domain ", "Escape character is ";
    var k, a := MatchBanner(s).value, MatchLine(s, first).value;
    MatchedIsLine(s, first);
    MatchedIsLine(s[a..], second);
    assert s[..k] == s[..a] + s[a..][..k - a];
  }

  lemma BannerIsMatched(a: string, b: string, more: string)
    requires IsLine(a, "Connected to domain ") && IsLine(b, "Escape character is ")
    ensures MatchBanner(a + b + more) == Some(|a| + |b|)
  {
    hide MatchLine, IsLine;
    var s, rest := a + b + more, b + more;
    assert s == a + rest;
    assert s[..|a|] == a && s[|a|..] == rest && rest[..|b|] == b;
    MatchLineIs(s, "Connected to domain ", |a|);
    MatchLineIs(rest, "Escape character is ", |b|);
  }

  /** The expression matches exactly when such a banner is at the start, up to its end. */
  lemma MatchBannerIs(s: string, k: nat)
    requires k <= |s|
    ensures MatchBanner(s) == Some(k) <==> IsBanner(s[..k])
  {
    hide MatchBanner, IsLine;
    if MatchBanner(s) == Some(k) { MatchedIsBanner(s); }
    if a, b :| IsLine(a, "Connected to domain ") && IsLine(b, "Escape character is ") && s[..k] == a + b {
      BannerIsMatched(a, b, s[k..]);
      assert s == s[..k] + s[k..];
    }
  }

  /** One of these begins the other. */
  predicate Compatible(line: string, word: string) {
    line <= word || word <= line
  }

  lemma SplitAt(u: string, rest: string)
    requires '\n' !in u
    ensures Split(u + "\n" + rest) == [u] + Split(rest)
  {
    var s := u + "\n" + rest;
    assert s[|u|] == '\n' && s[..|u|] == u && s[|u| + 1..] == rest;
    FirstNewlineIs(s, |u|);
  }

  lemma SplitHead(s: string)
    ensures Split(s)[0] == "" <==> s == "" || s[0] == '\n'
  {
    if '\n' in s && s[0] != '\n' { assert s[..FirstNewline(s)][0] == s[0]; }
  }

  lemma CouldBeLines(head: string, lines: seq<string>)
    requires Split(head) == lines
    ensures CouldBeBanner(head)
       <==> && (|lines| > 2 ==> lines[2] == "") && Compatible(lines[0], "Connected to domain ")
            && (|lines| > 1 ==> Compatible(lines[1], "Escape character is "))
  {
    assert BannerLine(0) == "Connected to domain " && BannerLine(1) == "Escape character is ";
    hide Split, BannerLine;
  }

  lemma MoreLines(u: string, v: string, rest: string)
    requires '\n' !in u && '\n' !in v
    ensures var lines := Split(u + "\n" + (v + "\n" + rest));
            |lines| > 2 && lines[0] == u && lines[1] == v && (lines[2] == "" <==> rest == "" || rest[0] == '\n')
  {
    SplitAt(u, v + "\n" + rest);
    SplitAt(v, rest);
    SplitHead(rest);
    hide Split;
  }

  /** Which text of one, of two and of more lines is held back as the start of a banner. */
  lemma CouldBeIs(u: string, v: string, rest: string)
    requires '\n' !in u && '\n' !in v
    ensures CouldBeBanner(u) <==> Compatible(u, "Connected to domain ")
    ensures CouldBeBanner(u + "\n" + v)
       <==> Compatible(u, "Connected to domain ") && Compatible(v, "Escape character is ")
    ensures CouldBeBanner(u + "\n" + (v + "\n" + rest))
       <==> && Compatible(u, "Connected to domain ") && Compatible(v, "Escape character is ")
            && (rest == "" || rest[0] == '\n')
  {
    hide Split, CouldBeBanner, Compatible;
    SplitOnce(u, v);
    CouldBeLines(u, [u]);
    CouldBeLines(u + "\n" + v, [u, v]);
    var more := u + "\n" + (v + "\n" + rest);
    MoreLines(u, v, rest);
    CouldBeLines(more, Split(more));
  }

  // ----- Sessions

  /** What is lost, at most, is a banner at the very start: whatever the cuts and wherever the flushes fall. */
  ghost predicate Faithful(shown: string, x: string) {
    shown == x || (MatchBanner(x).Some? && shown == x[MatchBanner(x).value..])
  }

  lemma FaithfulPush(shown: string, x: string, text: string)
    requires Faithful(shown, x)
    ensures Faithful(shown + text, x + text)
  {
    hide MatchBanner;
    if MatchBanner(x).Some? {
      MatchBannerExtends(x, text);
      assert (x + text)[MatchBanner(x).value..] == x[MatchBanner(x).value..] + text;
    }
  }

  /** What one more chunk adds to what has been shown or is held back. */
  lemma PushShows(out: string, head: Option<string>, text: string)
    ensures var (more, head') := PushResult(head, text);
            var all := Held(head) + text;
            && (head == None ==> out + more + Held(head') == out + Held(head) + text && head' == None)
            && (head.Some? && out == "" ==>
                  && Faithful(out + more + Held(head'), all)
                  && (head'.Some? ==> (out + more, head') == ("", Some(all))))
  {
    hide MatchBanner, CouldBeBanner;
    var (more, head') := PushResult(head, text);
    assert more + Held(head') == if head'.Some? then head'.value else more;
    if head.Some? {
      WholeOrStripped(head.value + text);
      if out == "" { assert out + more + Held(head') == more + Held(head'); }
    } else {
      assert out + more + Held(head') == out + text && out + Held(head) == out;
    }
  }

  lemma {:induction false} NothingElseIsLost(events: seq<Event>)
    ensures Faithful(Shown(events), Input(events))
    ensures After(events).1.Some? ==> After(events) == ("", Some(Input(events)))
  {
    if events != [] {
      hide MatchBanner, CouldBeBanner, Faithful, PushResult;
      var n := |events| - 1;
      NothingElseIsLost(events[..n]);
      var (out, head) := After(events[..n]);
      var x := Input(events[..n]);
      match events[n]
      case Flush =>
        assert Input(events) == x && Shown(events) == Shown(events[..n]);
      case Chunk(text) =>
        FaithfulPush(Shown(events[..n]), x, text);
        PushShows(out, head, text);
    }
  }

  lemma WholeOrStripped(x: string)
    ensures Faithful(x, x)
    ensures MatchBanner(x).Some? ==> Faithful(x[MatchBanner(x).value..], x)
  {
  }

  /** Without a banner the session passes through untouched. */
  lemma NoBannerNoChange(events: seq<Event>)
    requires MatchBanner(Input(events)) == None
    ensures Shown(events) == Input(events)
  {
    NothingElseIsLost(events);
  }

  // ----- Which cuts keep a banner

  /** The text of the first n chunks. */
  function Front(texts: seq<string>, n: nat): string
    requires n <= |texts|
  {
    if n == 0 then "" else Front(texts, n - 1) + texts[n - 1]
  }

  function AfterChunks(texts: seq<string>, n: nat): (string, Option<string>)
    requires n <= |texts|
  {
    After(Chunks(texts)[..n])
  }

  /** Some cut falls past the point of giving up and short of the banner's end. */
  ghost predicate CutTooLate(texts: seq<string>, n: nat, banner: nat)
    requires n <= |texts|
  {
    exists i :: 0 <= i <= n && 512 < |Front(texts, i)| < banner
  }

  lemma {:induction false} FrontIsInput(texts: seq<string>, n: nat)
    requires n <= |texts|
    ensures Front(texts, n) == Input(Chunks(texts)[..n])
  {
    if n > 0 {
      FrontIsInput(texts, n - 1);
      assert Chunks(texts)[..n][..n - 1] == Chunks(texts)[..n - 1];
    }
  }

  lemma {:induction false} FrontIsPrefix(texts: seq<string>, n: nat, m: nat)
    requires n <= m <= |texts|
    ensures Front(texts, n) <= Front(texts, m)
  {
    if n < m { FrontIsPrefix(texts, n, m - 1); }
  }

  lemma AfterOneMore(texts: seq<string>, n: nat)
    requires n < |texts|
    ensures var (out, head) := AfterChunks(texts, n);
            var (more, head') := PushResult(head, texts[n]);
            AfterChunks(texts, n + 1) == (out + more, head')
  {
    assert Chunks(texts)[..n + 1][..n] == Chunks(texts)[..n];
  }

  /** With a banner at the start of x, what a session that pushes x in these chunks has done after n of them. */
  lemma {:induction false} Progress(texts: seq<string>, n: nat, x: string)
    requires n <= |texts| && x == Front(texts, |texts|) && MatchBanner(x).Some?
    ensures var t, banner := Front(texts, n), MatchBanner(x).value;
            AfterChunks(texts, n) == if CutTooLate(texts, n, banner) then (t, None)
                                     else if |t| < banner then ("", Some(t)) else (t[banner..], None)
  {
    hide MatchBanner, CouldBeBanner, AfterChunks;
    var banner := MatchBanner(x).value;
    if n == 0 {
      assert AfterChunks(texts, 0) == ("", Some("")) by { NothingYet(texts); }
    } else {
      var t, u := Front(texts, n - 1), Front(texts, n);
      Progress(texts, n - 1, x);
      AfterOneMore(texts, n - 1);
      FrontIsPrefix(texts, n, |texts|);
      assert x[..|u|] == u;
      MatchBannerOfPrefix(x, |u|);
      if |u| < banner { PrefixCouldBeBanner(x, |u|); }
      assert CutTooLate(texts, n, banner) <==> CutTooLate(texts, n - 1, banner) || GIVE_UP < |u| < banner;
      if CutTooLate(texts, n - 1, banner) {
      } else if |t| >= banner {
        assert u[banner..] == t[banner..] + texts[n - 1];
      } else {
        var (more, head) := PushResult(Some(t), texts[n - 1]);
        assert "" + more == more;
      }
    }
  }

  lemma NothingYet(texts: seq<string>)
    ensures AfterChunks(texts, 0) == ("", Some(""))
  {
  }

  /** What one way of cutting x shows: x without its banner, unless a cut falls too late in a long one. */
  lemma WhatIsShown(texts: seq<string>, x: string)
    requires x == Front(texts, |texts|) && MatchBanner(x).Some?
    ensures Shown(Chunks(texts)) == if CutTooLate(texts, |texts|, MatchBanner(x).value) then x
            else x[MatchBanner(x).value..]
  {
    hide MatchBanner;
    Progress(texts, |texts|, x);
    assert Chunks(texts)[..|texts|] == Chunks(texts);
  }

  /** All ways of cutting x show the same. */
  ghost predicate CutsDoNotMatter(x: string) {
    forall a, b :: Front(a, |a|) == x && Front(b, |b|) == x ==> Shown(Chunks(a)) == Shown(Chunks(b))
  }

  /**
   How output is cut into chunks does not matter exactly when it has no banner longer than one
   character past the point of giving up: a longer one is dropped when it arrives whole and shown
   when it arrives in pieces.
   */
  lemma CutsMatterOnlyForLongBanners(x: string)
    ensures CutsDoNotMatter(x) <==> MatchBanner(x) == None || MatchBanner(x).value <= 513
  {
    hide MatchBanner, Chunks;
    if MatchBanner(x) == None {
      forall a | Front(a, |a|) == x ensures Shown(Chunks(a)) == x {
        FrontIsInput(a, |a|);
        assert Chunks(a)[..|a|] == Chunks(a) by { ChunkCount(a); }
        NoBannerNoChange(Chunks(a));
      }
    } else {
      var banner := MatchBanner(x).value;
      forall a | Front(a, |a|) == x
        ensures Shown(Chunks(a)) == if CutTooLate(a, |a|, banner) then x else x[banner..]
      {
        WhatIsShown(a, x);
      }
      if banner > GIVE_UP + 1 {
        LateCut(x, banner);
      }
    }
  }

  lemma ChunkCount(texts: seq<string>)
    ensures |Chunks(texts)| == |texts|
  {
  }

  /** One cut in the stretch makes a difference. */
  lemma LateCut(x: string, banner: nat)
    requires GIVE_UP + 1 < banner <= |x|
    ensures var whole, cut := [x], [x[..GIVE_UP + 1], x[GIVE_UP + 1..]];
            && Front(whole, |whole|) == x && !CutTooLate(whole, |whole|, banner)
            && Front(cut, |cut|) == x && CutTooLate(cut, |cut|, banner)
            && x[banner..] != x
  {
    var whole, cut := [x], [x[..GIVE_UP + 1], x[GIVE_UP + 1..]];
    assert Front(whole, 0) == "" && Front(whole, 1) == "" + x == x;
    forall i | 0 <= i <= 1 ensures !(GIVE_UP < |Front(whole, i)| < banner) {
      assert i == 0 || i == 1;
    }
    assert Front(cut, 1) == "" + x[..GIVE_UP + 1] == x[..GIVE_UP + 1];
    assert Front(cut, 2) == x[..GIVE_UP + 1] + x[GIVE_UP + 1..] == x;
    assert |x[banner..]| < |x|;
  }

  // ----- virsh's own banner

  /** The banner virsh writes for a domain's name, quotes and all, and its words for the escape character. */
  function BannerOf(name: string, key: string): string {
    BannerLine(0) + name + "\n" + BannerLine(1) + key + "\n"
  }

  lemma BannerOfIsBanner(name: string, key: string, more: string)
    requires OneLine(name) && OneLine(key)
    ensures MatchBanner(BannerOf(name, key) + more) == Some(42 + |name| + |key|)
  {
    assert |BannerLine(0)| == 20 && |BannerLine(1)| == 20;
    hide MatchLine, BannerLine;
    var second := BannerLine(1) + key + "\n" + more;
    var x := BannerOf(name, key) + more;
    assert x == BannerLine(0) + name + "\n" + second;
    LineIsMatched(BannerLine(0), name, "\n", second);
    assert x[|BannerLine(0)| + |name| + 1..] == second;
    LineIsMatched(BannerLine(1), key, "\n", more);
  }

  /** So cuts matter exactly for a name and an escape character of more than 471 characters together. */
  lemma CutsMatterOnlyForLongNames(name: string, key: string, more: string)
    requires OneLine(name) && OneLine(key)
    ensures CutsDoNotMatter(BannerOf(name, key) + more) <==> |name| + |key| <= 471
  {
    hide MatchBanner, CutsDoNotMatter;
    BannerOfIsBanner(name, key, more);
    CutsMatterOnlyForLongBanners(BannerOf(name, key) + more);
  }

  /** A name of 600 letters: its banner is dropped when it comes in one chunk and shown when it comes in two. */
  lemma LongNameIsShown()
    ensures var x := BannerOf(seq(600, _ => 'a'), "^]");
            && |x| == 644 && Shown(Chunks([x])) == ""
            && Shown(Chunks([x[..GIVE_UP + 1], x[GIVE_UP + 1..]])) == x
  {
    hide MatchBanner, Shown, Chunks, CutTooLate, BannerOf;
    var name := seq(600, _ => 'a');
    var x := BannerOf(name, "^]");
    assert x + "" == x;
    BannerOfIsBanner(name, "^]", "");
    BannerLength(name, "^]");
    LateCut(x, 644);
    WhatIsShown([x], x);
    WhatIsShown([x[..GIVE_UP + 1], x[GIVE_UP + 1..]], x);
  }

  lemma BannerLength(name: string, key: string)
    ensures |BannerOf(name, key)| == 42 + |name| + |key|
  {
  }
}
