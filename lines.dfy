/**
 * The feed-line filter and tokeniser of `add_to_ipset`, and the progress
 * total it announces for a feed.
 */
module Lines {
  import opened Wrappers
  import opened Text

  /** A feed line that is tokenised: `line and not line.startswith('#')`. */
  predicate IsDataLine(line: string) {
    line != [] && line[0] != '#'
  }

  /**
   * `line.split()[0].strip().split(';')[0]`. `None` stands for the
   * `IndexError` that `split()[0]` raises on a line with no field.
   */
  function FeedToken(line: string): (r: Option<string>)
    ensures r.None? <==> AllSpace(line)
  {
    var fs := Fields(line);
    if fs == [] then None else Some(Split(Strip(fs[0]), ';')[0])
  }

  /** A piece of text without whitespace is left alone by `strip`. */
  lemma StripWord(w: string)
    requires forall k :: 0 <= k < |w| ==> !IsSpace(w[k])
    ensures Strip(w) == w
  {
    assert LStrip(w) == w;
  }

  /** The first whitespace-delimited field of `line`. */
  function FirstField(line: string): (w: string)
    ensures |w| <= |LStrip(line)| && w == LStrip(line)[..|w|]
    ensures forall k :: 0 <= k < |w| ==> !IsSpace(w[k])
    ensures |w| == |LStrip(line)| || IsSpace(LStrip(line)[|w|])
  {
    var t := LStrip(line);
    t[..WordLength(t)]
  }

  /** What `split()[0].strip()` yields is the first field itself. */
  lemma TokenOfField(line: string)
    requires !AllSpace(line)
    ensures FeedToken(line) == Some(Split(FirstField(line), ';')[0])
  {
    StripWord(FirstField(line));
  }

  /**
   * A prefix of a word that stops at ';' or at the end of the word, where
   * the word stops at whitespace or at the end of the text, stops at one
   * of the three in the text.
   */
  lemma PrefixOfWord(t: string, w: string, tok: string)
    requires |w| <= |t| && t[..|w|] == w
    requires |w| == |t| || IsSpace(t[|w|])
    requires |tok| <= |w| && tok == w[..|tok|]
    requires |tok| == |w| || w[|tok|] == ';'
    ensures |tok| <= |t| && t[..|tok|] == tok
    ensures |tok| == |t| || IsSpace(t[|tok|]) || t[|tok|] == ';'
  {
    assert t[..|w|][..|tok|] == t[..|tok|];
    if |tok| < |w| {
      assert t[|tok|] == w[|tok|];
    }
  }

  /** The token taken from the first field holds no whitespace and no ';'. */
  lemma FieldTokenChars(line: string)
    ensures var tok := Split(FirstField(line), ';')[0];
      forall k :: 0 <= k < |tok| ==> !IsSpace(tok[k]) && tok[k] != ';'
  {
    var w := FirstField(line);
    var tok := Split(w, ';')[0];
    SplitSpec(w, ';');
    assert forall k :: 0 <= k < |tok| ==> tok[k] == w[k];
  }

  /**
   * The token of a line with a field is the run of characters that starts
   * at its first non-whitespace character and stops before the next
   * whitespace character or ';' (or at the end of the line).
   */
  lemma FeedTokenSpec(line: string, tok: string)
    requires FeedToken(line) == Some(tok)
    ensures var t := LStrip(line);
      && t != [] && |tok| <= |t| && t[..|tok|] == tok
      && (forall k :: 0 <= k < |tok| ==> !IsSpace(tok[k]) && tok[k] != ';')
      && (|tok| == |t| || IsSpace(t[|tok|]) || t[|tok|] == ';')
  {
    TokenOfField(line);
    var w := FirstField(line);
    SplitSpec(w, ';');
    PrefixOfWord(LStrip(line), w, tok);
    FieldTokenChars(line);
  }

  /** `total_ips`: the number of lines of the feed that are tokenised. */
  function ProgressTotal(lines: seq<string>): nat {
    if lines == [] then 0
    else ProgressTotal(lines[..|lines| - 1]) + (if IsDataLine(lines[|lines| - 1]) then 1 else 0)
  }

  /**
   * The progress bar advances once per line, comments and blanks included,
   * so it ends at `|lines|`, which reaches the announced total exactly when
   * every line is a data line.
   */
  lemma {:induction false} ProgressOvershoot(lines: seq<string>)
    ensures ProgressTotal(lines) <= |lines|
    ensures ProgressTotal(lines) == |lines| <==> forall k :: 0 <= k < |lines| ==> IsDataLine(lines[k])
  {
    if lines != [] {
      var init := lines[..|lines| - 1];
      ProgressOvershoot(init);
      if ProgressTotal(lines) == |lines| {
        forall k | 0 <= k < |lines| ensures IsDataLine(lines[k]) {
          if k < |init| {
            assert init[k] == lines[k];
          }
        }
      }
      if forall k :: 0 <= k < |lines| ==> IsDataLine(lines[k]) {
        assert forall k :: 0 <= k < |init| ==> init[k] == lines[k];
      }
    }
  }
}
