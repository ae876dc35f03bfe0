/**
 * Text layout of the NPC's dialogue boxes: `NPC.wrap_text` in code/npc.py.
 *
 * The text is cut into words at every single space (Python's `str.split(' ')`),
 * and the words are placed greedily on lines: a word joins the current line when
 * the widened line still measures no more than the box width, and otherwise it
 * opens a new line. The font is not modelled: it is the measure `width`, an
 * arbitrary function from a line to its pixel width (no monotonicity assumed).
 */
module TextLayout {

  /** Python's `s.split(' ')`: cut at every single space; always at least one word. */
  function Split(s: string): (words: seq<string>)
    ensures |words| >= 1
  {
    if s == [] then [""]
    else
      var init := Split(s[..|s| - 1]);
      var c := s[|s| - 1];
      if c == ' ' then init + [""]
      else init[..|init| - 1] + [init[|init| - 1] + [c]]
  }

  /** Python's `' '.join(lines)`. */
  function Join(lines: seq<string>): string
  {
    if |lines| == 0 then ""
    else if |lines| == 1 then lines[0]
    else Join(lines[..|lines| - 1]) + " " + lines[|lines| - 1]
  }

  /** No word of a split contains a space. */
  lemma {:induction false} SplitWordsHaveNoSpace(s: string)
    ensures forall k :: 0 <= k < |Split(s)| ==> ' ' !in Split(s)[k]
  {
    if s != [] {
      var init := Split(s[..|s| - 1]);
      var c := s[|s| - 1];
      SplitWordsHaveNoSpace(s[..|s| - 1]);
      if c != ' ' {
        var k := |init| - 1;
        assert ' ' !in init[k] + [c];
      }
    }
  }

  /** Joining the words of a split gives back the text. */
  lemma {:induction false} JoinSplit(s: string)
    ensures Join(Split(s)) == s
  {
    if s != [] {
      var p := s[..|s| - 1];
      var c := s[|s| - 1];
      var init := Split(p);
      JoinSplit(p);
      assert s == p + [c];
      if c == ' ' {
        assert (init + [""])[..|init|] == init;
      } else {
        var k := |init| - 1;
        var words := init[..k] + [init[k] + [c]];
        if k > 0 {
          assert words[..k] == init[..k];
          assert init == init[..k] + [init[k]];
        }
      }
    }
  }

  /** Appending space-free characters only lengthens the last word. */
  lemma {:induction false} SplitAppendWord(s: string, w: string)
    requires ' ' !in w
    ensures var words := Split(s);
      Split(s + w) == words[..|words| - 1] + [words[|words| - 1] + w]
    decreases |w|
  {
    var words := Split(s);
    if w == [] {
      assert s + w == s;
      assert words[|words| - 1] + w == words[|words| - 1];
      assert words == words[..|words| - 1] + [words[|words| - 1]];
    } else {
      var v := w[..|w| - 1];
      var c := w[|w| - 1];
      assert w == v + [c];
      assert c != ' ' by { assert c == w[|w| - 1]; }
      SplitAppendWord(s, v);
      assert (s + w)[..|s + w| - 1] == s + v;
      assert (s + w)[|s + w| - 1] == c;
      var mid := Split(s + v);
      assert mid[..|mid| - 1] == words[..|words| - 1];
      assert mid[|mid| - 1] + [c] == words[|words| - 1] + w;
    }
  }

  /** A trailing space ends the last word and opens an empty one. */
  lemma SplitSpace(s: string)
    ensures Split(s + " ") == Split(s) + [""]
  {
    assert (s + " ")[..|s|] == s;
  }

  /** Splitting a join of space-free words gives back the words. */
  lemma {:induction false} SplitJoin(words: seq<string>)
    requires |words| >= 1
    requires forall k :: 0 <= k < |words| ==> ' ' !in words[k]
    ensures Split(Join(words)) == words
  {
    var n := |words|;
    if n == 1 {
      SplitWord(words[0]);
    } else {
      var init := words[..n - 1];
      var last := words[n - 1];
      assert forall k :: 0 <= k < |init| ==> ' ' !in init[k] by {
        forall k | 0 <= k < |init| ensures ' ' !in init[k] {
          assert init[k] == words[k];
        }
      }
      SplitJoin(init);
      SplitExtend(Join(init), last);
      assert words == init + [last];
      assert Join(words) == Join(init) + " " + last;
    }
  }

  /** The state of the greedy placement: the finished lines and the line being filled. */
  datatype Layout = Layout(lines: seq<string>, current: string)

  /** One iteration of the loop of `wrap_text` (code/npc.py:69-76). */
  function Place(width: string -> int, maxWidth: int, acc: Layout, word: string): Layout
  {
    var test := if acc.current != "" then acc.current + " " + word else word;
    if width(test) <= maxWidth then Layout(acc.lines, test)
    else Layout(if acc.current != "" then acc.lines + [acc.current] else acc.lines, word)
  }

  /** The loop of `wrap_text` over a sequence of words, from an empty layout. */
  function PlaceAll(width: string -> int, maxWidth: int, words: seq<string>): Layout
  {
    if words == [] then Layout([], "")
    else Place(width, maxWidth, PlaceAll(width, maxWidth, words[..|words| - 1]), words[|words| - 1])
  }

  /** The closing step of `wrap_text`: a non-empty current line is emitted. */
  function Flush(acc: Layout): seq<string>
  {
    if acc.current != "" then acc.lines + [acc.current] else acc.lines
  }

  /** The lines `wrap_text` returns for `text`. */
  function Wrap(text: string, width: string -> int, maxWidth: int): seq<string>
  {
    Flush(PlaceAll(width, maxWidth, Split(text)))
  }

  /** A line may be emitted when it is non-empty and either fits or is one word of the text. */
  predicate Acceptable(width: string -> int, maxWidth: int, words: seq<string>, line: string)
  {
    line != "" && (width(line) <= maxWidth || line in words)
  }

  /** Every finished line is acceptable, and so is the current line unless it is empty. */
  lemma {:induction false} PlaceAllSound(width: string -> int, maxWidth: int, words: seq<string>)
    ensures var acc := PlaceAll(width, maxWidth, words);
      (forall k :: 0 <= k < |acc.lines| ==> Acceptable(width, maxWidth, words, acc.lines[k]))
      && (acc.current == "" || Acceptable(width, maxWidth, words, acc.current))
  {
    if words != [] {
      var init := words[..|words| - 1];
      var word := words[|words| - 1];
      PlaceAllSound(width, maxWidth, init);
      var prev := PlaceAll(width, maxWidth, init);
      forall line | line in init
        ensures line in words
      {
        var j :| 0 <= j < |init| && init[j] == line;
        assert words[j] == line;
      }
      assert word in words;
    }
  }

  /** `wrap_text` never emits an empty line. */
  lemma WrapNoEmptyLine(text: string, width: string -> int, maxWidth: int)
    ensures forall k :: 0 <= k < |Wrap(text, width, maxWidth)| ==> Wrap(text, width, maxWidth)[k] != ""
  {
    PlaceAllSound(width, maxWidth, Split(text));
  }

  /** Every emitted line fits the width, or is a single word of the text set alone because it did not fit. */
  lemma WrapLineFitsOrIsWord(text: string, width: string -> int, maxWidth: int)
    ensures var lines := Wrap(text, width, maxWidth);
      forall k :: 0 <= k < |lines| ==> width(lines[k]) <= maxWidth || lines[k] in Split(text)
  {
    PlaceAllSound(width, maxWidth, Split(text));
  }

  /** The empty text gives no lines, whatever the measure. */
  lemma WrapEmptyText(width: string -> int, maxWidth: int)
    ensures Wrap("", width, maxWidth) == []
  {
    assert Split("") == [""];
    assert [""][..0] == [];
    assert PlaceAll(width, maxWidth, [""]) == Place(width, maxWidth, Layout([], ""), "");
  }

  /** With no empty words, the placed lines and the current line join back to the words placed so far. */
  lemma {:induction false} PlaceAllJoin(width: string -> int, maxWidth: int, words: seq<string>)
    requires forall k :: 0 <= k < |words| ==> words[k] != ""
    ensures var acc := PlaceAll(width, maxWidth, words);
      if words == [] then acc == Layout([], "")
      else acc.current != "" && Join(acc.lines + [acc.current]) == Join(words)
  {
    var n := |words|;
    if n > 0 {
      var init := words[..n - 1];
      var word := words[n - 1];
      PlaceAllJoin(width, maxWidth, init);
      var prev := PlaceAll(width, maxWidth, init);
      var test := if prev.current != "" then prev.current + " " + word else word;
      if n == 1 {
        assert prev == Layout([], "");
        assert Join(words) == word;
      } else {
        assert Join(words) == Join(init) + " " + word;
        var before := prev.lines + [prev.current];
        if width(test) <= maxWidth {
          JoinExtendLast(prev.lines, prev.current, word);
        } else {
          assert (before + [word])[..|before|] == before;
        }
      }
    }
  }

  /** Extending the last line by a word extends the join by that word. */
  lemma JoinExtendLast(lines: seq<string>, last: string, word: string)
    ensures Join(lines + [last + " " + word]) == Join(lines + [last]) + " " + word
  {
    var n := |lines|;
    if n > 0 {
      assert (lines + [last + " " + word])[..n] == lines;
      assert (lines + [last])[..n] == lines;
    }
  }

  /**
   * When the text has no empty word (it is non-empty and has no leading, trailing
   * or doubled space), joining the emitted lines with single spaces gives back the
   * text exactly.
   */
  lemma WrapRoundTrip(text: string, width: string -> int, maxWidth: int)
    requires forall k :: 0 <= k < |Split(text)| ==> Split(text)[k] != ""
    ensures Join(Wrap(text, width, maxWidth)) == text
  {
    PlaceAllJoin(width, maxWidth, Split(text));
    JoinSplit(text);
  }

  /** A space-free word splits into itself. */
  lemma SplitWord(w: string)
    requires ' ' !in w
    ensures Split(w) == [w]
  {
    SplitAppendWord("", w);
    assert "" + w == w;
  }

  /** Appending a space and a space-free word appends that word to the split. */
  lemma SplitExtend(s: string, w: string)
    requires ' ' !in w
    ensures Split(s + " " + w) == Split(s) + [w]
  {
    SplitSpace(s);
    SplitAppendWord(s + " ", w);
    assert (Split(s) + [""])[..|Split(s)|] == Split(s);
    assert "" + w == w;
  }

  /** Each line but the last was closed because the next line's first word would not fit on it. */
  predicate Greedy(width: string -> int, maxWidth: int, lines: seq<string>)
  {
    forall k :: 0 <= k < |lines| - 1 ==> width(lines[k] + " " + Split(lines[k + 1])[0]) > maxWidth
  }

  /** A word that fits extends the current line without changing its first word. */
  lemma PlaceFitsGreedy(width: string -> int, maxWidth: int, lines: seq<string>, current: string, w: string)
    requires current != "" && ' ' !in w
    requires Greedy(width, maxWidth, lines + [current])
    ensures Greedy(width, maxWidth, lines + [current + " " + w])
  {
    var before := lines + [current];
    var after := lines + [current + " " + w];
    assert Split(current + " " + w)[0] == Split(current)[0] by {
      SplitExtend(current, w);
    }
    forall k | 0 <= k < |after| - 1
      ensures width(after[k] + " " + Split(after[k + 1])[0]) > maxWidth
    {
      assert after[k] == before[k];
      if k + 1 < |lines| {
        assert after[k + 1] == before[k + 1];
      } else {
        assert after[k + 1] == current + " " + w && before[k + 1] == current;
      }
    }
  }

  /** A word that does not fit starts a new line, and the closed line records why. */
  lemma PlaceBreakGreedy(width: string -> int, maxWidth: int, lines: seq<string>, current: string, w: string)
    requires ' ' !in w
    requires width(current + " " + w) > maxWidth
    requires Greedy(width, maxWidth, lines + [current])
    ensures Greedy(width, maxWidth, lines + [current] + [w])
  {
    var before := lines + [current];
    var after := before + [w];
    SplitWord(w);
    forall k | 0 <= k < |after| - 1
      ensures width(after[k] + " " + Split(after[k + 1])[0]) > maxWidth
    {
      if k < |lines| {
        assert after[k] == before[k] && after[k + 1] == before[k + 1];
      }
    }
  }

  /** With non-empty, space-free words, the finished lines and the current line are greedy. */
  lemma {:induction false} PlaceAllGreedy(width: string -> int, maxWidth: int, words: seq<string>)
    requires forall k :: 0 <= k < |words| ==> words[k] != "" && ' ' !in words[k]
    ensures Greedy(width, maxWidth, PlaceAll(width, maxWidth, words).lines + [PlaceAll(width, maxWidth, words).current])
  {
    var n := |words|;
    if n > 0 {
      var init := words[..n - 1];
      var w := words[n - 1];
      var prev := PlaceAll(width, maxWidth, init);
      if n == 1 {
        assert prev == Layout([], "");
      } else {
        PlaceAllGreedy(width, maxWidth, init);
        PlaceAllJoin(width, maxWidth, init);
        if width(prev.current + " " + w) <= maxWidth {
          PlaceFitsGreedy(width, maxWidth, prev.lines, prev.current, w);
        } else {
          PlaceBreakGreedy(width, maxWidth, prev.lines, prev.current, w);
        }
      }
    }
  }

  /**
   * Greedy filling: when the text has no empty word, every emitted line but the
   * last was closed only because the next line's first word did not fit on it.
   */
  lemma WrapGreedy(text: string, width: string -> int, maxWidth: int)
    requires forall k :: 0 <= k < |Split(text)| ==> Split(text)[k] != ""
    ensures Greedy(width, maxWidth, Wrap(text, width, maxWidth))
  {
    var words := Split(text);
    SplitWordsHaveNoSpace(text);
    PlaceAllJoin(width, maxWidth, words);
    PlaceAllGreedy(width, maxWidth, words);
  }

  /** `NPC.wrap_text`: the loop over the words, with its local accumulators. */
  method WrapText(text: string, width: string -> int, maxWidth: int) returns (lines: seq<string>)
    ensures lines == Wrap(text, width, maxWidth)
  {
    var words := Split(text);
    lines := [];
    var current := "";
    for i := 0 to |words|
      invariant Layout(lines, current) == PlaceAll(width, maxWidth, words[..i])
    {
      var word := words[i];
      var testLine := if current != "" then current + " " + word else word;
      if width(testLine) <= maxWidth {
        current := testLine;
      } else {
        if current != "" {
          lines := lines + [current];
        }
        current := word;
      }
      assert words[..i + 1][..i] == words[..i];
    }
    assert words[..|words|] == words;
    if current != "" {
      lines := lines + [current];
    }
  }
}
