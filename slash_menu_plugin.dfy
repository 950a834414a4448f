/**
 * The slash-command plugin: on every editor update it looks at the text
 * before the cursor and decides whether the menu is open and with which
 * query.  The decision is the anchored pattern "a backslash followed by
 * lower-case letters a-z up to the end of the text"; the query is the
 * letters.
 */
module SlashMenuPlugin {
  import opened Wrappers
  import opened Document
  import SlashMenu

  predicate IsLetter(c: char)
  {
    'a' <= c <= 'z'
  }

  predicate AllLetters(s: string)
  {
    forall i :: 0 <= i < |s| ==> IsLetter(s[i])
  }

  /** The length of the longest run of letters a-z at the end of `s`. */
  function TrailingLetters(s: string): (n: nat)
    ensures n <= |s| && AllLetters(s[|s| - n..])
    ensures n < |s| ==> !IsLetter(s[|s| - n - 1])
    decreases |s|
  {
    if |s| == 0 || !IsLetter(s[|s| - 1]) then 0
    else
      var n := TrailingLetters(s[..|s| - 1]);
      LettersExtend(s, n);
      n + 1
  }

  /** A run of letters ending just before a final letter extends to the end. */
  lemma LettersExtend(s: string, n: nat)
    requires n < |s| && IsLetter(s[|s| - 1])
    requires AllLetters(s[..|s| - 1][|s| - 1 - n..])
    requires n < |s| - 1 ==> !IsLetter(s[..|s| - 1][|s| - 1 - n - 1])
    ensures AllLetters(s[|s| - (n + 1)..])
    ensures n + 1 < |s| ==> !IsLetter(s[|s| - (n + 1) - 1])
  {
    assert s[..|s| - 1][|s| - 1 - n..] + [s[|s| - 1]] == s[|s| - (n + 1)..];
  }

  /** The pattern matches at position `i`: a backslash there and only letters after it. */
  predicate MatchesAt(prefix: string, i: nat)
  {
    i < |prefix| && prefix[i] == SlashMenu.Backslash && AllLetters(prefix[i + 1..])
  }

  /**
   * The match of the trigger pattern against the text before the cursor:
   * the captured letters, or None when the pattern does not match.
   */
  function MatchTrigger(prefix: string): (r: Option<string>)
    ensures r.Some? <==> exists i: nat :: MatchesAt(prefix, i)
    ensures forall i: nat :: MatchesAt(prefix, i) ==> r == Some(prefix[i + 1..])
  {
    var n := TrailingLetters(prefix);
    var i := |prefix| - n - 1;
    if n < |prefix| && prefix[i] == SlashMenu.Backslash then
      assert MatchesAt(prefix, i);
      Some(prefix[i + 1..])
    else
      assert forall j: nat :: !MatchesAt(prefix, j) by {
        forall j: nat ensures !MatchesAt(prefix, j) {
          if j < |prefix| && prefix[j] == SlashMenu.Backslash && AllLetters(prefix[j + 1..]) {
            OnlyAfterLastNonLetter(prefix, j, n);
          }
        }
      }
      None
  }

  /**
   * A backslash followed only by letters must sit right before the trailing
   * run of letters: the backslash itself is not a letter, and everything after
   * it is.
   */
  lemma OnlyAfterLastNonLetter(s: string, j: nat, n: nat)
    requires j < |s| && !IsLetter(s[j]) && AllLetters(s[j + 1..])
    requires n == TrailingLetters(s)
    ensures j == |s| - n - 1
  {
  }

  /**
   * The slice of the text before the offset, as the string `slice` takes it:
   * an offset past the end means the whole text.
   */
  function Before(text: string, offset: nat): string
  {
    if offset <= |text| then text[..offset] else text
  }

  datatype Signal = Closed | Open(query: string)

  /** What the update listener concludes from one editor state. */
  function Detect(s: EditorState): (r: Signal)
    requires WellFormed(s)
    ensures !s.selection.RangeSelection? ==> r == Closed
    ensures s.selection.RangeSelection? && !s.nodes[s.selection.anchor.node].Text? ==> r == Closed
    ensures r.Open? <==>
      && s.selection.RangeSelection?
      && s.nodes[s.selection.anchor.node].Text?
      && exists i: nat :: MatchesAt(Before(s.nodes[s.selection.anchor.node].text, s.selection.anchor.offset), i)
    ensures r.Open? ==> AllLetters(r.query)
  {
    if !s.selection.RangeSelection? then Closed
    else
      var node := s.nodes[s.selection.anchor.node];
      if !node.Text? then Closed
      else
        match MatchTrigger(Before(node.text, s.selection.anchor.offset))
        case Some(q) => Open(q)
        case None => Closed
  }

  /**
   * The query is exactly the letters after the matching backslash, up to the
   * cursor.
   */
  lemma DetectQuery(s: EditorState, i: nat)
    requires WellFormed(s) && s.selection.RangeSelection?
    requires s.nodes[s.selection.anchor.node].Text?
    requires MatchesAt(Before(s.nodes[s.selection.anchor.node].text, s.selection.anchor.offset), i)
    ensures Detect(s) == Open(Before(s.nodes[s.selection.anchor.node].text, s.selection.anchor.offset)[i + 1..])
  {
  }

  /** Characters after the cursor never affect the outcome. */
  lemma AfterCursorIgnored(s: EditorState, tail: string)
    requires WellFormed(s) && s.selection.RangeSelection?
    requires s.nodes[s.selection.anchor.node].Text?
    ensures var a := s.selection.anchor;
      var t := s.nodes[a.node].text;
      var s' := EditorState(s.nodes[a.node := Text(t[..a.offset] + tail)], RangeSelection(a, a));
      WellFormed(s') && Detect(s') == Detect(s)
  {
    var a := s.selection.anchor;
    var t := s.nodes[a.node].text;
    assert (t[..a.offset] + tail)[..a.offset] == t[..a.offset];
  }

  /** Only the anchor matters: collapsedness is not checked, the focus is ignored. */
  lemma FocusIgnored(s: EditorState, focus: Point)
    requires WellFormed(s) && s.selection.RangeSelection? && ValidPoint(s.nodes, focus)
    ensures var s' := s.(selection := RangeSelection(s.selection.anchor, focus));
      WellFormed(s') && Detect(s') == Detect(s)
  {
  }

  /** There is no escaping: a backslash after another backslash still opens the menu. */
  lemma PatternExamplesOpen()
    ensures MatchTrigger("\\") == Some("")
    ensures MatchTrigger("x\\py") == Some("py")
    ensures MatchTrigger("\\\\") == Some("")
    ensures MatchTrigger("\\\\py") == Some("py")
  {
    assert MatchesAt("\\", 0);
    assert MatchesAt("x\\py", 1);
    assert MatchesAt("\\\\", 1);
    assert MatchesAt("\\\\py", 1);
  }

  /** An upper-case letter, a space or a digit after the backslash closes the menu, as does no backslash. */
  lemma PatternExamplesClosed()
    ensures MatchTrigger("\\Py") == None
    ensures MatchTrigger("\\p y") == None
    ensures MatchTrigger("\\py2") == None
    ensures MatchTrigger("py") == None
  {
    assert !IsLetter('P') && !IsLetter(' ') && !IsLetter('2');
    assert "\\Py"[2..] == "y";
    assert "\\p y"[3..] == "y";
  }

  /**
   * With a non-empty query the character before the cursor is a letter, so a
   * command run from the menu finds no backslash to remove: only an empty
   * query gets its trigger removed (for a collapsed cursor).
   */
  lemma TriggerRemovalNeedsEmptyQuery(s: EditorState)
    requires WellFormed(s) && Detect(s).Open?
    ensures Detect(s).query != "" ==> SlashMenu.TriggerRemoved(s) == s
    ensures Detect(s).query == "" && s.selection.IsCollapsed() ==> SlashMenu.RemovesTrigger(s)
  {
    var a := s.selection.anchor;
    var t := s.nodes[a.node].text;
    var p := Before(t, a.offset);
    var i: nat :| MatchesAt(p, i);
    assert p == t[..a.offset];
    if Detect(s).query != "" {
      assert p[|p| - 1] == p[i + 1..][|p| - i - 2];
      assert t[a.offset - 1] == p[|p| - 1];
    } else {
      assert |p[i + 1..]| == 0;
    }
  }

  /**
   * The plugin's state: whether the menu is open and the last query seen.
   */
  class SlashCommandPlugin {
    var open: bool
    var query: string

    constructor ()
      ensures !open && query == ""
    {
      open := false;
      query := "";
    }

    /**
     * The update listener: opens the menu with the captured query on a match,
     * otherwise closes it and keeps the previous query.
     */
    method OnUpdate(s: EditorState)
      requires WellFormed(s)
      modifies this
      ensures open == Detect(s).Open?
      ensures query == if Detect(s).Open? then Detect(s).query else old(query)
    {
      if !s.selection.RangeSelection? {
        open := false;
        return;
      }
      var node := s.nodes[s.selection.anchor.node];
      if !node.Text? {
        open := false;
        return;
      }
      var text := node.text;
      var offset := s.selection.anchor.offset;
      var beforeCursor := Before(text, offset);
      var m := MatchTrigger(beforeCursor);
      if m.Some? {
        open := true;
        query := m.value;
      } else {
        open := false;
      }
    }

    /** The render gate: the menu, with the options for the query, is shown exactly when open. */
    method Render() returns (menu: Option<seq<SlashMenu.Entry>>)
      ensures menu.Some? <==> open
      ensures menu.Some? ==> menu.value == SlashMenu.Visible(query)
    {
      if !open {
        return None;
      }
      return Some(SlashMenu.Visible(query));
    }
  }
}
