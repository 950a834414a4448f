/**
 * The slash menu: a fixed catalog of four commands filtered by the query,
 * and the three editor actions its commands run (remove the trigger
 * backslash, insert a code block, insert a link placeholder).
 */
module SlashMenu {
  import opened Wrappers
  import opened Document
  import opened Strings

  datatype Action =
    | InsertCode(language: Option<string>)  // None stands for the default argument
    | InsertLinkPlaceholder

  datatype Entry = Entry(name: string, action: Action)

  /** The catalog, in display order. */
  function Catalog(): seq<Entry>
  {
    [ Entry("Python", InsertCode(Some("python"))),
      Entry("JavaScript", InsertCode(None)),
      Entry("Bash", InsertCode(Some("bash"))),
      Entry("Link", InsertLinkPlaceholder) ]
  }

  const DefaultLanguage: string := "javascript"
  const LinkUrl: string := "https://"
  const LinkText: string := "link"

  /** The language a code block gets: the argument, or the default when it is omitted. */
  function CodeLanguage(language: Option<string>): string
  {
    match language
    case Some(l) => l
    case None => DefaultLanguage
  }

  /** The placeholder link: one link node whose only child is the text `link`. */
  function LinkPlaceholder(): Node
  {
    Link(LinkUrl, [Text(LinkText)])
  }

  // ---------------------------------------------------------------------
  // Case-insensitive filtering
  // ---------------------------------------------------------------------

  /** Lower-casing of one character (ASCII letters only). */
  function LowerChar(c: char): char
  {
    if 'A' <= c <= 'Z' then (c as int - 'A' as int + 'a' as int) as char else c
  }

  function Lower(s: string): string
  {
    seq(|s|, i requires 0 <= i < |s| => LowerChar(s[i]))
  }

  predicate IsPrefix(p: string, s: string)
  {
    |p| <= |s| && s[..|p|] == p
  }

  /** Substring search as the string `includes` does it: try each start position in turn. */
  predicate Includes(s: string, sub: string)
    decreases |s|
  {
    IsPrefix(sub, s) || (|s| > 0 && Includes(s[1..], sub))
  }

  /** `Includes` finds `sub` exactly when it occurs at some position of `s`. */
  lemma {:induction false} IncludesIff(s: string, sub: string)
    ensures Includes(s, sub) <==> exists i: nat :: OccursAt(s, sub, i)
    decreases |s|
  {
    if IsPrefix(sub, s) {
      assert OccursAt(s, sub, 0);
    } else if |s| == 0 {
      forall i: nat ensures !OccursAt(s, sub, i) {
      }
    } else {
      IncludesIff(s[1..], sub);
      if Includes(s[1..], sub) {
        var i: nat :| OccursAt(s[1..], sub, i);
        Shift(s, i, |sub|);
        assert OccursAt(s, sub, i + 1);
      } else {
        forall i: nat ensures !OccursAt(s, sub, i) {
          if i == 0 && |sub| <= |s| {
            assert s[0..0 + |sub|] == s[..|sub|];
          } else if i + |sub| <= |s| {
            Shift(s, i - 1, |sub|);
            assert !OccursAt(s[1..], sub, i - 1);
          }
        }
      }
    }
  }

  /** An entry is shown for a query when its lower-cased label (its `name`) contains the lower-cased query. */
  predicate Matches(e: Entry, query: string)
  {
    Includes(Lower(e.name), Lower(query))
  }

  /** Two strings that agree up to the case of their letters. */
  predicate SameUpToCase(a: string, b: string)
  {
    |a| == |b| && forall i :: 0 <= i < |a| ==> LowerChar(a[i]) == LowerChar(b[i])
  }

  /**
   * Matching ignores case on both sides: labels, and queries, that agree up
   * to the case of their letters give the same answer.
   */
  lemma MatchesIgnoresCase(e: Entry, f: Entry, q: string, r: string)
    requires SameUpToCase(e.name, f.name) && SameUpToCase(q, r)
    ensures Matches(e, q) == Matches(f, r)
  {
    assert Lower(e.name) == Lower(f.name);
    assert Lower(q) == Lower(r);
  }

  /** `a` is `b` with some elements left out, order kept. */
  predicate IsSubsequence<T(==)>(a: seq<T>, b: seq<T>)
    decreases |b|
  {
    if a == [] then true
    else if b == [] then false
    else if a[0] == b[0] then IsSubsequence(a[1..], b[1..])
    else IsSubsequence(a, b[1..])
  }

  /** The entries that match the query, in their original order. */
  function Filter(entries: seq<Entry>, query: string): seq<Entry>
    decreases |entries|
  {
    if entries == [] then []
    else if Matches(entries[0], query) then [entries[0]] + Filter(entries[1..], query)
    else Filter(entries[1..], query)
  }

  /**
   * The filter keeps exactly the matching entries, in their original order,
   * each as many times as it occurs.
   */
  lemma {:induction false} FilterSpec(entries: seq<Entry>, query: string)
    ensures forall e :: e in Filter(entries, query) <==> e in entries && Matches(e, query)
    ensures IsSubsequence(Filter(entries, query), entries)
    ensures forall e ::
      multiset(Filter(entries, query))[e] == (if Matches(e, query) then multiset(entries)[e] else 0)
    decreases |entries|
  {
    if entries != [] {
      FilterSpec(entries[1..], query);
      var r := Filter(entries, query);
      var t := Filter(entries[1..], query);
      assert entries == [entries[0]] + entries[1..];
      if Matches(entries[0], query) {
        assert r == [entries[0]] + t;
        assert r[0] == entries[0] && r[1..] == t;
      }
    }
  }

  /** The options the menu shows for a query. */
  function Visible(query: string): seq<Entry>
  {
    Filter(Catalog(), query)
  }

  /** What the menu shows is always drawn from the catalog, in catalog order. */
  lemma VisibleFromCatalog(query: string)
    ensures IsSubsequence(Visible(query), Catalog())
    ensures forall e :: e in Visible(query) <==> e in Catalog() && Matches(e, query)
  {
    FilterSpec(Catalog(), query);
  }

  /** Every label contains the empty string, so an empty query shows the whole catalog. */
  lemma {:induction false} EmptyQueryShowsAll(entries: seq<Entry>)
    ensures Filter(entries, "") == entries
    decreases |entries|
  {
    if entries != [] {
      assert Lower("") == "";
      assert IsPrefix("", Lower(entries[0].name));
      EmptyQueryShowsAll(entries[1..]);
    }
  }

  lemma VisibleEmptyQuery()
    ensures Visible("") == Catalog()
  {
    EmptyQueryShowsAll(Catalog());
  }

  /** What the filter keeps of one entry. */
  function Kept(e: Entry, query: string): seq<Entry>
  {
    if Matches(e, query) then [e] else []
  }

  /** The filter takes or drops the first entry, then filters the rest. */
  lemma FilterStep(entries: seq<Entry>, query: string)
    requires entries != []
    ensures Filter(entries, query) == Kept(entries[0], query) + Filter(entries[1..], query)
  {
  }

  /** The filter over four entries, spelled out entry by entry. */
  lemma FilterFour(e0: Entry, e1: Entry, e2: Entry, e3: Entry, query: string)
    ensures Filter([e0, e1, e2, e3], query) ==
      Kept(e0, query) + (Kept(e1, query) + (Kept(e2, query) + (Kept(e3, query) + [])))
  {
    var es := [e0, e1, e2, e3];
    Tails(e0, e1, e2, e3);
    FilterStep(es, query);
    FilterStep(es[1..], query);
    FilterStep(es[1..][1..], query);
    FilterStep(es[1..][1..][1..], query);
  }

  lemma MiddleTwo(e0: Entry, e1: Entry, e2: Entry, e3: Entry, query: string)
    requires !Matches(e0, query) && Matches(e1, query) && Matches(e2, query) && !Matches(e3, query)
    ensures Filter([e0, e1, e2, e3], query) == [e1, e2]
  {
    FilterFour(e0, e1, e2, e3, query);
    assert Kept(e0, query) == [] && Kept(e1, query) == [e1];
    assert Kept(e2, query) == [e2] && Kept(e3, query) == [];
  }

  lemma Tails(e0: Entry, e1: Entry, e2: Entry, e3: Entry)
    ensures var es := [e0, e1, e2, e3];
      && es[0] == e0 && es[1..] == [e1, e2, e3]
      && es[1..][0] == e1 && es[1..][1..] == [e2, e3]
      && es[1..][1..][0] == e2 && es[1..][1..][1..] == [e3]
      && es[1..][1..][1..][0] == e3 && es[1..][1..][1..][1..] == []
  {
  }

  lemma CatalogNames()
    ensures Lower(Catalog()[0].name) == "python" && Lower(Catalog()[1].name) == "javascript"
    ensures Lower(Catalog()[2].name) == "bash" && Lower(Catalog()[3].name) == "link"
  {
  }

  lemma LowerA()
    ensures Lower("A") == "a"
  {
  }

  lemma MatchesA()
    ensures !Matches(Catalog()[0], "A") && Matches(Catalog()[1], "A")
    ensures Matches(Catalog()[2], "A") && !Matches(Catalog()[3], "A")
  {
    CatalogNames();
    LowerA();
    NotIncluded("python", "a");
    HasLetter("javascript", 'a', 1);
    HasLetter("bash", 'a', 1);
    NotIncluded("link", "a");
  }

  lemma IncludedAt(s: string, sub: string, i: nat)
    requires OccursAt(s, sub, i)
    ensures Includes(s, sub)
  {
    IncludesIff(s, sub);
  }

  /** A one-character query is contained in any label that has that character somewhere. */
  lemma HasLetter(s: string, c: char, i: nat)
    requires i < |s| && s[i] == c
    ensures Includes(s, [c])
  {
    assert s[i..i + 1] == [c];
    IncludedAt(s, [c], i);
  }

  /** An upper-case query matches as a lower-case one; the order stays the catalog's. */
  lemma VisibleExampleA()
    ensures Visible("A") == [Catalog()[1], Catalog()[2]]
  {
    var c := Catalog();
    MatchesA();
    assert c == [c[0], c[1], c[2], c[3]];
    MiddleTwo(c[0], c[1], c[2], c[3], "A");
  }

  /** `sub` is absent when its first character is nowhere in `s`. */
  lemma NotIncluded(s: string, sub: string)
    requires |sub| > 0 && sub[0] !in s
    ensures !Includes(s, sub)
  {
    IncludesIff(s, sub);
    forall i: nat ensures !OccursAt(s, sub, i) {
      if i + |sub| <= |s| {
        assert s[i..i + |sub|][0] == s[i];
      }
    }
  }

  // ---------------------------------------------------------------------
  // The actions
  // ---------------------------------------------------------------------

  /** The character the menu's trigger starts with. */
  const Backslash: char := '\\'

  /** Whether `removeSlashTrigger` deletes a character in state `s`. */
  predicate RemovesTrigger(s: EditorState)
    requires WellFormed(s)
  {
    && s.selection.RangeSelection?
    && s.selection.IsCollapsed()
    && s.nodes[s.selection.anchor.node].Text?
    && s.selection.anchor.offset > 0
    && s.nodes[s.selection.anchor.node].text[s.selection.anchor.offset - 1] == Backslash
  }

  /**
   * The state after `removeSlashTrigger`: for a collapsed range selection in
   * a text node whose character just before the cursor is a backslash, that
   * one character is spliced out and the cursor steps back over it; in every
   * other state nothing changes.
   */
  function TriggerRemoved(s: EditorState): (r: EditorState)
    requires WellFormed(s)
    ensures WellFormed(r)
    ensures !RemovesTrigger(s) ==> r == s
    ensures RemovesTrigger(s) ==>
      var a := s.selection.anchor;
      var t := s.nodes[a.node].text;
      && |r.nodes| == |s.nodes|
      && r.nodes[a.node] == Text(t[..a.offset - 1] + t[a.offset..])
      && (forall j :: 0 <= j < |s.nodes| && j != a.node ==> r.nodes[j] == s.nodes[j])
      && r.selection == RangeSelection(Point(a.node, a.offset - 1), Point(a.node, a.offset - 1))
  {
    if RemovesTrigger(s) then
      var a := s.selection.anchor;
      Spliced(s, a.node, a.offset - 1, 1, "")
    else s
  }

  /**
   * Removing the trigger deletes exactly the backslash just before the
   * cursor from the document's characters, and otherwise keeps them.
   */
  lemma TriggerRemovedText(s: EditorState)
    requires WellFormed(s) && RemovesTrigger(s)
    ensures var p := CursorPos(s);
      var d := DocText(s.nodes);
      && 0 < p <= |d| && d[p - 1] == Backslash
      && DocText(TriggerRemoved(s).nodes) == d[..p - 1] + d[p..]
  {
    var a := s.selection.anchor;
    var t := s.nodes[a.node].text;
    var r := TriggerRemoved(s);
    var l, c, m := t[..a.offset - 1], t[a.offset - 1], t[a.offset..];
    assert r.nodes[a.node] == Text(l + m);
    ReplacedText(s.nodes, r.nodes, a.node, t, l + m);
    assert t == l + [c] + m;
    assert CursorPos(s) == |DocText(s.nodes[..a.node])| + |l| + 1;
    Cut(DocText(s.nodes), DocText(s.nodes[..a.node]), t, DocText(s.nodes[a.node + 1..]), l, c, m);
  }

  /** Cutting the character `c` out of `b + (l + [c] + m) + a`. */
  lemma Cut(w: string, b: string, t: string, a: string, l: string, c: char, m: string)
    requires w == b + t + a && t == l + [c] + m
    ensures 0 < |b| + |l| + 1 <= |w| && w[|b| + |l|] == c
    ensures w[..|b| + |l|] + w[|b| + |l| + 1..] == b + (l + m) + a
  {
    var p := |b| + |l|;
    assert w[..p] == b + l;
    assert w[p + 1..] == m + a;
  }

  /** The state after `insertCodeBlock(language)`. */
  function CodeBlockInserted(s: EditorState, language: Option<string>): (r: EditorState)
    requires WellFormed(s)
    ensures WellFormed(r)
  {
    var s1 := TriggerRemoved(s);
    if s1.selection.RangeSelection? then InsertedAt(s1, Code(CodeLanguage(language))) else s1
  }

  /** The state after `insertLink`. */
  function LinkInserted(s: EditorState): (r: EditorState)
    requires WellFormed(s)
    ensures WellFormed(r)
  {
    var s1 := TriggerRemoved(s);
    if s1.selection.NoSelection? then s1 else InsertedAt(s1, LinkPlaceholder())
  }

  /** The state after running a catalog action in one update batch. */
  function Performed(s: EditorState, action: Action): (r: EditorState)
    requires WellFormed(s)
    ensures WellFormed(r)
  {
    match action
    case InsertCode(language) => CodeBlockInserted(s, language)
    case InsertLinkPlaceholder => LinkInserted(s)
  }

  /**
   * A code block is inserted exactly when, after the trigger removal, the
   * selection is a range selection; the block carries the requested language
   * (the default one when omitted) and adds no characters to the document.
   */
  lemma CodeBlockInsertedSpec(s: EditorState, language: Option<string>)
    requires WellFormed(s)
    ensures var s1 := TriggerRemoved(s);
      var r := CodeBlockInserted(s, language);
      && (!s1.selection.RangeSelection? ==> r == s1)
      && (s1.selection.RangeSelection? ==>
            && InsertIndex(s1) < |r.nodes|
            && r.nodes[InsertIndex(s1)] == Code(CodeLanguage(language))
            && InsertFrame(s1, r.nodes, Code(CodeLanguage(language)))
            && DocText(r.nodes) == DocText(s1.nodes))
  {
    var s1 := TriggerRemoved(s);
    if s1.selection.RangeSelection? {
      InsertedAtText(s1, Code(CodeLanguage(language)));
      CodeNodeText(CodeLanguage(language));
      SpliceNothing(DocText(s1.nodes), CursorPos(s1), NodeText(Code(CodeLanguage(language))));
    }
  }

  /** Splicing no characters in leaves a string as it was. */
  lemma SpliceNothing(d: string, p: nat, x: string)
    requires p <= |d| && x == ""
    ensures d[..p] + x + d[p..] == d
  {
    assert d == d[..p] + d[p..];
  }

  /**
   * A link is inserted under any selection that exists, a node selection
   * included; it is one node with URL `https://` and the text `link`, and its
   * text is spliced in at the insertion point.
   */
  lemma LinkInsertedSpec(s: EditorState)
    requires WellFormed(s)
    ensures var s1 := TriggerRemoved(s);
      var r := LinkInserted(s);
      && (s1.selection.NoSelection? ==> r == s1)
      && (!s1.selection.NoSelection? ==>
            var p := if s1.selection.RangeSelection? then CursorPos(s1) else |DocText(s1.nodes[..s1.selection.node + 1])|;
            && InsertIndex(s1) < |r.nodes|
            && r.nodes[InsertIndex(s1)] == Link("https://", [Text("link")])
            && InsertFrame(s1, r.nodes, LinkPlaceholder())
            && p <= |DocText(s1.nodes)|
            && DocText(r.nodes) == DocText(s1.nodes)[..p] + "link" + DocText(s1.nodes)[p..])
  {
    var s1 := TriggerRemoved(s);
    if !s1.selection.NoSelection? {
      InsertedAtText(s1, LinkPlaceholder());
      TextNodeText(LinkText);
      assert NodeText(LinkPlaceholder()) == "link";
    }
  }

  /** The catalog's commands and the languages they insert. */
  lemma CatalogActions()
    ensures Catalog()[0].action == InsertCode(Some("python"))
    ensures CodeLanguage(Catalog()[1].action.language) == "javascript"
    ensures CodeLanguage(Catalog()[2].action.language) == "bash"
    ensures Catalog()[3].action == InsertLinkPlaceholder
  {
  }

  /** `removeSlashTrigger`, on the active editor. */
  method RemoveSlashTrigger(editor: Editor)
    requires editor.Valid()
    modifies editor
    ensures editor.Valid()
    ensures editor.Snapshot() == TriggerRemoved(old(editor.Snapshot()))
  {
    var selection := editor.selection;
    if !selection.RangeSelection? { return; }
    if !selection.IsCollapsed() { return; }
    var anchor := selection.anchor;
    var node := editor.nodes[anchor.node];
    if !node.Text? { return; }
    var text := node.text;
    var offset := anchor.offset;
    if offset > 0 && text[offset - 1] == Backslash {
      editor.SpliceText(anchor.node, offset - 1, 1, "");
    }
  }

  /** `insertCodeBlock(language)`: remove the trigger, then insert a code block if a range is selected. */
  method InsertCodeBlock(editor: Editor, language: Option<string>)
    requires editor.Valid()
    modifies editor
    ensures editor.Valid()
    ensures editor.Snapshot() == CodeBlockInserted(old(editor.Snapshot()), language)
  {
    RemoveSlashTrigger(editor);
    if !editor.selection.RangeSelection? { return; }
    editor.InsertNodes(Code(CodeLanguage(language)));
  }

  /** `insertLink`: remove the trigger, then insert the placeholder link under any selection. */
  method InsertLink(editor: Editor)
    requires editor.Valid()
    modifies editor
    ensures editor.Valid()
    ensures editor.Snapshot() == LinkInserted(old(editor.Snapshot()))
  {
    RemoveSlashTrigger(editor);
    if editor.selection.NoSelection? { return; }
    editor.InsertNodes(LinkPlaceholder());
  }

  /** A click on the `index`-th visible option runs its action as one update batch. */
  method OnClick(editor: Editor, query: string, index: nat)
    requires editor.Valid() && index < |Visible(query)|
    modifies editor
    ensures editor.Valid()
    ensures editor.Snapshot() == Performed(old(editor.Snapshot()), Visible(query)[index].action)
  {
    match Visible(query)[index].action
    case InsertCode(language) => InsertCodeBlock(editor, language);
    case InsertLinkPlaceholder => InsertLink(editor);
  }
}
