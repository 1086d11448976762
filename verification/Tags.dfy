/**
  The loop that splits the tags of a beatmap: a `stringstream` that is read by `>>`
  until `eof()`.
 */
module Tags {
  import opened Strings

  predicate IsWord(w: string) {
    w != [] && forall i :: 0 <= i < |w| ==> !IsSpace(w[i])
  }

  // ---------- std::stringstream ----------

  /** How many characters at the front of `s` are spaces, or are not. */
  function SpaceRun(s: string): (n: nat)
    ensures n <= |s| && (forall i :: 0 <= i < n ==> IsSpace(s[i])) && (n < |s| ==> !IsSpace(s[n]))
  {
    if s != [] && IsSpace(s[0]) then 1 + SpaceRun(s[1..]) else 0
  }

  function WordRun(s: string): (n: nat)
    ensures n <= |s| && (forall i :: 0 <= i < n ==> !IsSpace(s[i])) && (n < |s| ==> IsSpace(s[n]))
  {
    if s != [] && !IsSpace(s[0]) then 1 + WordRun(s[1..]) else 0
  }

  /** A stream that reads from a string: what is not read yet, and the two state bits. */
  class StringStream {
    var rest: string
    var eofbit: bool
    var failbit: bool

    constructor (text: string)
      ensures rest == text && !eofbit && !failbit
    {
      rest := text;
      eofbit := false;
      failbit := false;
    }

    /**
      `ss >> temp`. On a stream that is good, spaces are skipped and a word is read
      up to the next space; the end of the text sets `eofbit`. If there is no word,
      `failbit` is set and `temp` keeps its value.
     */
    method Extract(temp: string) returns (r: string)
      modifies this
      ensures old(!eofbit && !failbit) ==>
                var s := old(rest)[SpaceRun(old(rest))..];
                var n := WordRun(s);
                && rest == s[n..] && eofbit == (n == |s|) && failbit == (s == [])
                && r == if s == [] then temp else s[..n]
      ensures old(eofbit || failbit) ==> r == temp && failbit && rest == old(rest) && eofbit == old(eofbit)
    {
      r := temp;
      if eofbit || failbit {
        failbit := true;
        return;
      }
      var s := rest[SpaceRun(rest)..];
      var n := WordRun(s);
      if s == [] {
        failbit := true;
      } else {
        r := s[..n];
      }
      eofbit := n == |s|;
      rest := s[n..];
    }
  }

  // ---------- words ----------

  /** The words of a text: its maximal runs without spaces. */
  function Words(s: string): (ws: seq<string>)
    ensures forall i :: 0 <= i < |ws| ==> IsWord(ws[i])
    decreases |s|
  {
    var t := s[SpaceRun(s)..];
    if t == [] then []
    else [t[..WordRun(t)]] + Words(t[WordRun(t)..])
  }

  /** Empty, or ending in a space: the last extraction finds no word. */
  predicate OpenEnd(s: string) {
    s == [] || IsSpace(s[|s| - 1])
  }

  /**
    The words, and at an open end one element more: the last word again, or `temp`
    if there is none. This is what the loop pushes for `s` after it has read `temp`.
   */
  function Pending(temp: string, s: string): seq<string> {
    var ws := Words(s);
    if !OpenEnd(s) then ws
    else if ws == [] then [temp]
    else ws + [ws[|ws| - 1]]
  }

  /** The tags of a text; `temp` is empty at the start. */
  function TagsOf(s: string): seq<string> {
    Pending("", s)
  }

  /** The loop of `GetBeatmap` and `GetBeatmapset`. */
  method SplitTags(text: string) returns (tags: seq<string>)
    ensures tags == TagsOf(text)
  {
    var ss := new StringStream(text);
    var temp := "";
    tags := [];
    ghost var goal := TagsOf(text);
    assert tags + Pending(temp, ss.rest) == goal;
    while !ss.eofbit
      invariant ss.failbit ==> ss.eofbit
      invariant if ss.eofbit then tags == goal else tags + Pending(temp, ss.rest) == goal
      decreases !ss.eofbit, |ss.rest|
    {
      PushStep(tags, temp, ss.rest, goal);
      temp := ss.Extract(temp);
      tags := tags + [temp];
    }
  }

  lemma PushStep(tags: seq<string>, temp: string, rest: string, goal: seq<string>)
    requires tags + Pending(temp, rest) == goal
    ensures var s := rest[SpaceRun(rest)..];
            var n := WordRun(s);
            && (s == [] ==> tags + [temp] == goal)
            && (s != [] && n == |s| ==> tags + [s[..n]] == goal)
            && (s != [] && n < |s| ==> n > 0 && tags + [s[..n]] + Pending(s[..n], s[n..]) == goal)
  {
    PendingStep(temp, rest);
    var s := rest[SpaceRun(rest)..];
    var n := WordRun(s);
    assert n == |s| ==> s[..n] == s;
    ConcatAssociative(tags, [s[..n]], Pending(s[..n], s[n..]));
  }

  /** One extraction and one push. */
  lemma PendingStep(temp: string, rest: string)
    ensures var s := rest[SpaceRun(rest)..];
            var n := WordRun(s);
            && (s == [] ==> Pending(temp, rest) == [temp])
            && (s != [] && n == |s| ==> Pending(temp, rest) == [s])
            && (s != [] && n < |s| ==> Pending(temp, rest) == [s[..n]] + Pending(s[..n], s[n..]))
  {
    var s := rest[SpaceRun(rest)..];
    var n := WordRun(s);
    if s == [] {
      PushNothing(temp, rest);
    } else {
      FrontWord(rest);
      if n == |s| {
        NoWords();
        PushLastWord(s, temp, rest);
      } else {
        PushWord(s[..n], s[n..], temp, rest);
      }
    }
  }

  lemma NoWords()
    ensures Words("") == []
  {
  }

  /** The word that an extraction reads, and what it leaves. */
  lemma FrontWord(rest: string)
    requires rest[SpaceRun(rest)..] != ""
    ensures var s := rest[SpaceRun(rest)..];
            var n := WordRun(s);
            && Words(rest) == [s[..n]] + Words(s[n..])
            && (n == |s| ==> s[..n] == s && s[n..] == "" && !OpenEnd(rest))
            && (n < |s| ==> OpenEnd(rest) == OpenEnd(s[n..]))
  {
    var s := rest[SpaceRun(rest)..];
    var n := WordRun(s);
    EndOfSlice(rest, SpaceRun(rest));
    if n < |s| {
      EndOfSlice(s, n);
    } else {
      EndOfWord(s);
    }
  }

  lemma EndOfSlice(s: string, k: nat)
    requires k < |s|
    ensures OpenEnd(s) == OpenEnd(s[k..])
  {
    assert s[k..][|s[k..]| - 1] == s[|s| - 1];
  }

  lemma EndOfWord(s: string)
    requires s != "" && WordRun(s) == |s|
    ensures !OpenEnd(s) && s[..|s|] == s && s[|s|..] == ""
  {
  }

  /** The end of a text decides whether it is open. */
  lemma EndOfConcat(a: string, b: string)
    requires b != ""
    ensures OpenEnd(a + b) == OpenEnd(b)
  {
    assert (a + b)[|a + b| - 1] == b[|b| - 1];
  }

  /** At the end of the words the last one is pushed again. */
  lemma PushNothing(temp: string, rest: string)
    requires rest[SpaceRun(rest)..] == ""
    ensures Pending(temp, rest) == [temp]
  {
    assert Words(rest) == [];
  }

  /** A word at the very end of the text is pushed once. */
  lemma PushLastWord(w: string, temp: string, rest: string)
    requires Words(rest) == [w] && !OpenEnd(rest)
    ensures Pending(temp, rest) == [w]
  {
  }

  /** A word in front of more text is pushed first. */
  lemma PushWord(w: string, s: string, temp: string, rest: string)
    requires s != [] && OpenEnd(rest) == OpenEnd(s) && Words(rest) == [w] + Words(s)
    ensures Pending(temp, rest) == [w] + Pending(w, s)
  {
    var ws := Words(s);
    var all := [w] + ws;
    if ws != [] {
      assert all[|all| - 1] == ws[|ws| - 1];
      ConcatAssociative([w], ws, [ws[|ws| - 1]]);
    }
  }

  // ---------- joining ----------

  /** Words joined with single spaces. */
  function JoinWords(ws: seq<string>): string
    requires ws != []
  {
    if |ws| == 1 then ws[0] else ws[0] + (" " + JoinWords(ws[1..]))
  }

  lemma {:induction false} RunOfWord(w: string, s: string)
    requires IsWord(w) && (s == [] || IsSpace(s[0]))
    ensures SpaceRun(w + s) == 0 && WordRun(w + s) == |w|
  {
    var t := w + s;
    assert t[0] == w[0];
    var n := WordRun(t);
    assert forall i :: 0 <= i < |w| ==> t[i] == w[i];
    assert n >= |w|;
    if s != [] {
      assert t[|w|] == s[0];
    }
  }

  /** A word in front of a space is the first word. */
  lemma WordThenText(w: string, s: string)
    requires IsWord(w) && (s == [] || IsSpace(s[0]))
    ensures Words(w + s) == [w] + Words(s)
  {
    RunOfWord(w, s);
    var t := w + s;
    assert t[0..] == t && t[..|w|] == w && t[|w|..] == s;
  }

  // ---------- the layout of a text ----------

  predicate IsGap(g: string) {
    forall i :: 0 <= i < |g| ==> IsSpace(g[i])
  }

  /** Words with gaps of spaces in front, between and behind; only the first and the last gap may be empty. */
  predicate IsLayout(gaps: seq<string>, ws: seq<string>) {
    && |gaps| == |ws| + 1
    && (forall i :: 0 <= i < |ws| ==> IsWord(ws[i]))
    && (forall i :: 0 <= i < |gaps| ==> IsGap(gaps[i]) && (0 < i < |ws| ==> gaps[i] != ""))
  }

  function Layout(gaps: seq<string>, ws: seq<string>): string
    requires |gaps| == |ws| + 1
  {
    if ws == [] then gaps[0] else gaps[0] + (ws[0] + Layout(gaps[1..], ws[1..]))
  }

  lemma RunOfGap(g: string, s: string)
    requires IsGap(g)
    ensures SpaceRun(g + s) == |g| + SpaceRun(s)
  {
    var t := g + s;
    var n := SpaceRun(t);
    assert forall i :: 0 <= i < |g| ==> t[i] == g[i];
    assert forall i :: 0 <= i < |s| ==> t[|g| + i] == s[i];
  }

  lemma DropFront(g: string, s: string, n: nat)
    requires n <= |s|
    ensures (g + s)[|g| + n..] == s[n..]
  {
  }

  /** The words of a text depend only on what follows the spaces at its front. */
  lemma SameWords(a: string, b: string)
    requires a[SpaceRun(a)..] == b[SpaceRun(b)..]
    ensures Words(a) == Words(b)
  {
  }

  lemma WordsSkipGap(g: string, s: string)
    requires IsGap(g)
    ensures Words(g + s) == Words(s)
  {
    RunOfGap(g, s);
    DropFront(g, s, SpaceRun(s));
    SameWords(g + s, s);
  }

  /** A gap, a word and what follows. */
  lemma WordAfterGap(g: string, w: string, tail: string)
    requires IsGap(g) && IsWord(w) && (tail == "" || IsSpace(tail[0]))
    ensures Words(g + (w + tail)) == [w] + Words(tail)
  {
    WordsSkipGap(g, w + tail);
    WordThenText(w, tail);
  }

  /** However its words are spaced, the words of a text are the words it was laid out from. */
  lemma {:induction false} WordsOfLayout(gaps: seq<string>, ws: seq<string>)
    requires IsLayout(gaps, ws)
    ensures Words(Layout(gaps, ws)) == ws
  {
    if ws == [] {
      WordsSkipGap(gaps[0], "");
      assert gaps[0] + "" == gaps[0];
    } else {
      LayoutTail(gaps, ws);
      WordsOfLayout(gaps[1..], ws[1..]);
      WordAfterGap(gaps[0], ws[0], Layout(gaps[1..], ws[1..]));
      HeadAndTail(ws);
    }
  }

  /** What follows a word is a layout, and begins with a space if it is not empty. */
  lemma LayoutTail(gaps: seq<string>, ws: seq<string>)
    requires IsLayout(gaps, ws) && ws != []
    ensures IsLayout(gaps[1..], ws[1..])
    ensures var tail := Layout(gaps[1..], ws[1..]); tail == "" || IsSpace(tail[0])
  {
    assert forall i :: 0 <= i < |ws| ==> gaps[1..][i] == gaps[i + 1];
  }

  /** The first word of a text, what is in front of it and what follows. */
  lemma FirstWord(s: string) returns (g: string, w: string, rest: string)
    requires SpaceRun(s) < |s|
    ensures IsGap(g) && IsWord(w) && (rest == "" || IsSpace(rest[0]))
    ensures s == g + (w + rest) && Words(s) == [w] + Words(rest)
  {
    var n := SpaceRun(s);
    var t := s[n..];
    var k := WordRun(t);
    g, w, rest := s[..n], t[..k], t[k..];
    assert t == w + rest;
  }

  /** Every text is a layout of its words. */
  lemma {:induction false} TextIsLayout(s: string) returns (gaps: seq<string>)
    ensures IsLayout(gaps, Words(s)) && s == Layout(gaps, Words(s))
    decreases |s|
  {
    if SpaceRun(s) == |s| {
      gaps := [s];
    } else {
      var g, w, rest := FirstWord(s);
      var inner := TextIsLayout(rest);
      LayoutStep(g, w, inner, Words(rest));
      gaps := [g] + inner;
    }
  }

  /** One more gap and word in front; the gap before the next word is not empty if the text went on with a space. */
  lemma LayoutStep(g: string, w: string, gaps: seq<string>, ws: seq<string>)
    requires IsGap(g) && IsWord(w) && IsLayout(gaps, ws)
    requires var s := Layout(gaps, ws); s == "" || IsSpace(s[0])
    ensures IsLayout([g] + gaps, [w] + ws)
    ensures Layout([g] + gaps, [w] + ws) == g + (w + Layout(gaps, ws))
  {
    assert ([g] + gaps)[1..] == gaps && ([w] + ws)[1..] == ws;
    if ws != [] && gaps[0] == "" {
      assert false;
    }
  }

  /**
    For every text, as words with gaps: the tags are the words if and only if there
    is a word and nothing behind the last one; otherwise there is one tag more, the
    last word again or the empty string.
   */
  lemma TagsOfLayout(gaps: seq<string>, ws: seq<string>)
    requires IsLayout(gaps, ws)
    ensures TagsOf(Layout(gaps, ws)) == ws <==> ws != [] && gaps[|ws|] == ""
    ensures TagsOf(Layout(gaps, ws)) != ws ==>
              TagsOf(Layout(gaps, ws)) == ws + [if ws == [] then "" else ws[|ws| - 1]]
  {
    WordsOfLayout(gaps, ws);
    EndOfLayout(gaps, ws);
  }

  /** One word and a space behind it give the word twice. */
  method TrailingSpaceRepeats() returns (tags: seq<string>)
    ensures tags == ["a", "a"]
  {
    ghost var gaps, ws := ["", " "], ["a"];
    assert gaps[1..] == [" "] && ws[1..] == [];
    assert Layout([" "], []) == " ";
    assert "a " == "" + ("a" + " ");
    TagsOfLayout(gaps, ws);
    assert ws + ["a"] == ["a", "a"];
    tags := SplitTags("a ");
  }

  lemma {:induction false} EndOfLayout(gaps: seq<string>, ws: seq<string>)
    requires IsLayout(gaps, ws)
    ensures OpenEnd(Layout(gaps, ws)) <==> ws == [] || gaps[|ws|] != ""
  {
    if ws != [] {
      var tail := Layout(gaps[1..], ws[1..]);
      LayoutTail(gaps, ws);
      EndOfLayout(gaps[1..], ws[1..]);
      EndOfConcat(gaps[0], ws[0] + tail);
      if tail == "" {
        assert ws[0] + tail == ws[0];
      } else {
        EndOfConcat(ws[0], tail);
      }
      if |ws| == 1 {
        assert tail == gaps[1];
      }
    }
  }

  // ---------- joined words ----------

  /** What follows the words of a joined list: single spaces, and nothing at the end. */
  function JoinGaps(n: nat): (gaps: seq<string>)
    ensures |gaps| == n
  {
    if n == 0 then [] else if n == 1 then [""] else [" "] + JoinGaps(n - 1)
  }

  /** A joined list is a layout, behind any gap. */
  lemma {:induction false} JoinIsLayout(g: string, ws: seq<string>)
    requires ws != [] && (forall i :: 0 <= i < |ws| ==> IsWord(ws[i])) && IsGap(g)
    ensures var gaps := [g] + JoinGaps(|ws|);
            IsLayout(gaps, ws) && gaps[|ws|] == "" && Layout(gaps, ws) == g + JoinWords(ws)
    decreases |ws|
  {
    var gaps := [g] + JoinGaps(|ws|);
    assert gaps[1..] == JoinGaps(|ws|);
    if |ws| == 1 {
      assert ws[0] + "" == ws[0];
    } else {
      JoinIsLayout(" ", ws[1..]);
      var inner := [" "] + JoinGaps(|ws| - 1);
      assert gaps[1..] == inner;
      assert forall i :: 0 < i < |gaps| ==> gaps[i] == inner[i - 1];
    }
  }

  /** A joined list has the listed words, and nothing behind the last one. */
  lemma WordsOfJoin(ws: seq<string>)
    requires ws != [] && forall i :: 0 <= i < |ws| ==> IsWord(ws[i])
    ensures Words(JoinWords(ws)) == ws && !OpenEnd(JoinWords(ws))
  {
    JoinIsLayout("", ws);
    var gaps := [""] + JoinGaps(|ws|);
    assert "" + JoinWords(ws) == JoinWords(ws);
    WordsOfLayout(gaps, ws);
    EndOfLayout(gaps, ws);
  }

  /** Splitting undoes joining, for every list of words that is not empty. */
  lemma TagsOfJoin(ws: seq<string>)
    requires ws != [] && forall i :: 0 <= i < |ws| ==> IsWord(ws[i])
    ensures TagsOf(JoinWords(ws)) == ws
  {
    WordsOfJoin(ws);
  }
}
