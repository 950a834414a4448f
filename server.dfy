/**
 * The file server: a directory of HTML documents keyed by file name, with
 * handlers to list, create, update and read them.  Created and updated
 * content is stored wrapped in a page template with the style sheet embedded;
 * reads return what is stored, so they give back the wrapped page.
 */
module Server {
  import opened Wrappers
  import opened Strings

  const CssPlaceholder: string := "CSS_EMBEDDED_CONTENT"
  const HtmlPlaceholder: string := "HTML_EMBEDDED_CONTENT"

  /** The position of the first occurrence of `pat` in `s`, if any. */
  function FirstIndex(s: string, pat: string): (r: Option<nat>)
    ensures r.Some? ==> OccursAt(s, pat, r.value)
    ensures r.Some? ==> forall j: nat :: j < r.value ==> !OccursAt(s, pat, j)
    ensures r.None? ==> forall j: nat :: !OccursAt(s, pat, j)
    decreases |s|
  {
    if |s| < |pat| then None
    else if s[..|pat|] == pat then Some(0)
    else
      match FirstIndex(s[1..], pat)
      case None => 
        assert forall j: nat :: !OccursAt(s, pat, j) by {
          forall j: nat ensures !OccursAt(s, pat, j) {
            if j == 0 {
              assert s[0..0 + |pat|] == s[..|pat|];
            } else if j + |pat| <= |s| {
              Shift(s, j - 1, |pat|);
              assert !OccursAt(s[1..], pat, j - 1);
            }
          }
        }
        None
      case Some(i) =>
        Shift(s, i, |pat|);
        assert forall j: nat :: j < i + 1 ==> !OccursAt(s, pat, j) by {
          forall j: nat | j < i + 1 ensures !OccursAt(s, pat, j) {
            if j == 0 {
              assert s[0..0 + |pat|] == s[..|pat|];
            } else if j + |pat| <= |s| {
              Shift(s, j - 1, |pat|);
              assert !OccursAt(s[1..], pat, j - 1);
            }
          }
        }
        Some(i + 1)
  }

  /**
   * The replacement text that a string replacement inserts for a match: the
   * replacement string with its `$` patterns expanded.  With a plain string
   * as the search value there are no capture groups, so only `$$` (a dollar
   * sign), `$&` (the match), `` $` `` (the text before the match) and `$'`
   * (the text after it) are special; any other `$` stands for itself.
   */
  function Substitution(rep: string, matched: string, before: string, after: string): string
    decreases |rep|
  {
    if rep == [] then []
    else if rep[0] == '$' && |rep| >= 2 && rep[1] in "$&`'" then
      var expansion :=
        if rep[1] == '$' then "$"
        else if rep[1] == '&' then matched
        else if rep[1] == '`' then before
        else after;
      expansion + Substitution(rep[2..], matched, before, after)
    else [rep[0]] + Substitution(rep[1..], matched, before, after)
  }

  /** A replacement without `$` is inserted verbatim. */
  lemma {:induction false} SubstitutionVerbatim(rep: string, matched: string, before: string, after: string)
    requires '$' !in rep
    ensures Substitution(rep, matched, before, after) == rep
    decreases |rep|
  {
    if rep != [] {
      assert '$' !in rep[1..];
      SubstitutionVerbatim(rep[1..], matched, before, after);
    }
  }

  /**
   * Replaces the first occurrence of `pat` in `s`; without one, `s` comes back
   * unchanged.  Only the first occurrence is touched: the text before and
   * after it is kept.
   */
  function ReplaceFirst(s: string, pat: string, rep: string): string
  {
    match FirstIndex(s, pat)
    case None => s
    case Some(i) => s[..i] + Substitution(rep, pat, s[..i], s[i + |pat|..]) + s[i + |pat|..]
  }

  /**
   * With a `$`-free replacement, the first occurrence is swapped for the
   * replacement and nothing else changes.
   */
  lemma ReplaceFirstVerbatim(s: string, pat: string, rep: string)
    requires '$' !in rep
    ensures FirstIndex(s, pat).Some? ==>
      var i := FirstIndex(s, pat).value;
      i + |pat| <= |s| && s[i..i + |pat|] == pat &&
      ReplaceFirst(s, pat, rep) == s[..i] + rep + s[i + |pat|..]
  {
    if FirstIndex(s, pat).Some? {
      var i := FirstIndex(s, pat).value;
      SubstitutionVerbatim(rep, pat, s[..i], s[i + |pat|..]);
    }
  }

  /** Where `pat` occurs nowhere in `s`, the replacement leaves `s` as it is. */
  lemma ReplaceFirstAbsent(s: string, pat: string, rep: string)
    requires forall j: nat :: !OccursAt(s, pat, j)
    ensures ReplaceFirst(s, pat, rep) == s
  {
  }

  /**
   * Where `i` is the leftmost position at which `pat` occurs, a `$`-free
   * replacement takes the place of exactly that occurrence.
   */
  lemma ReplaceFirstAt(s: string, pat: string, rep: string, i: nat)
    requires '$' !in rep
    requires OccursAt(s, pat, i) && forall j: nat :: j < i ==> !OccursAt(s, pat, j)
    ensures ReplaceFirst(s, pat, rep) == s[..i] + rep + s[i + |pat|..]
  {
    var k := FirstIndex(s, pat).value;
    assert OccursAt(s, pat, k) && OccursAt(s, pat, i);
    assert k == i;
    ReplaceFirstVerbatim(s, pat, rep);
  }

  /** The stored page for `content`: the style sheet, then the content, put into the template. */
  function BuildHtmlDocument(template: string, css: string, content: string): string
  {
    ReplaceFirst(ReplaceFirst(template, CssPlaceholder, css), HtmlPlaceholder, content)
  }

  /**
   * What a read gives back after a create or update is the wrapped page, not
   * the content written: where the template (with the style sheet in) has an
   * HTML slot, the content is spliced in there between the template's text;
   * where it has none, the content is dropped altogether.
   */
  lemma StoredPageWrapsContent(template: string, css: string, content: string)
    requires '$' !in content
    ensures var m := ReplaceFirst(template, CssPlaceholder, css);
      var page := BuildHtmlDocument(template, css, content);
      && (FirstIndex(m, HtmlPlaceholder).None? ==> page == m)
      && (FirstIndex(m, HtmlPlaceholder).Some? ==>
            var i := FirstIndex(m, HtmlPlaceholder).value;
            && page == m[..i] + content + m[i + |HtmlPlaceholder|..]
            && |page| == |m| - |HtmlPlaceholder| + |content|)
  {
    var m := ReplaceFirst(template, CssPlaceholder, css);
    ReplaceFirstVerbatim(m, HtmlPlaceholder, content);
  }

  /** A template with more text than its HTML slot never gives back the bare content. */
  lemma StoredPageDiffersFromContent(template: string, css: string, content: string)
    requires '$' !in content
    requires var m := ReplaceFirst(template, CssPlaceholder, css);
      FirstIndex(m, HtmlPlaceholder).Some? && |m| > |HtmlPlaceholder|
    ensures BuildHtmlDocument(template, css, content) != content
  {
    StoredPageWrapsContent(template, css, content);
  }

  /**
   * The `$` patterns are live: a replacement of exactly `$&` puts the matched
   * placeholder back, so the string comes out unchanged (a style sheet or a
   * content of `$&` leaves its placeholder in the page).
   */
  lemma DollarAmpersandKeepsPlaceholder(s: string, pat: string)
    ensures ReplaceFirst(s, pat, "$&") == s
  {
    if FirstIndex(s, pat).Some? {
      var i := FirstIndex(s, pat).value;
      MatchPattern(pat, s[..i], s[i + |pat|..]);
      Rejoin(s, i, |pat|);
    }
  }

  /** `$&` expands to the matched text. */
  lemma MatchPattern(matched: string, before: string, after: string)
    ensures Substitution("$&", matched, before, after) == matched
  {
    assert "$&"[2..] == "";
  }

  /** A handler's reply. */
  datatype Response =
    | Names(files: set<string>)                 // the JSON array of file names
    | Message(message: string)                  // status 200 with a JSON message
    | Failure(status: nat, error: string)       // an error status with a JSON error
    | Page(data: string)                        // status 200 with the stored text

  /** A request field counts as present when it is there and not the empty string. */
  predicate Present(field: Option<string>)
  {
    field.Some? && field.value != ""
  }

  /**
   * The store: the files of the HTML directory by name, and the template and
   * style sheet every stored page is built from.
   */
  class FileStore {
    const template: string
    const css: string
    var files: map<string, string>

    constructor (template: string, css: string, files: map<string, string>)
      ensures this.template == template && this.css == css && this.files == files
    {
      this.template := template;
      this.css := css;
      this.files := files;
    }

    /** GET /files: the names of the stored files. */
    method List() returns (r: Response)
      ensures r == Names(files.Keys)
    {
      r := Names(files.Keys);
    }

    /**
     * POST /files: a missing or empty name or content, or a name already
     * taken, is refused with 400 and stores nothing; otherwise the new file
     * holds the built page and no other file changes.
     */
    method Create(filename: Option<string>, content: Option<string>) returns (r: Response)
      modifies this
      ensures !Present(filename) || !Present(content) ==>
        r == Failure(400, "filename and content are required") && files == old(files)
      ensures Present(filename) && Present(content) && filename.value in old(files) ==>
        r == Failure(400, "File already exists") && files == old(files)
      ensures Present(filename) && Present(content) && filename.value !in old(files) ==>
        r == Message("File created successfully") &&
        files == old(files)[filename.value := BuildHtmlDocument(template, css, content.value)]
    {
      if !Present(filename) || !Present(content) {
        return Failure(400, "filename and content are required");
      }
      var name := filename.value;
      if name in files {
        return Failure(400, "File already exists");
      }
      var finalHtml := BuildHtmlDocument(template, css, content.value);
      files := files[name := finalHtml];
      r := Message("File created successfully");
    }

    /**
     * PUT /files/:filename: a missing or empty content is refused with 400, an
     * unknown name with 404, and neither stores anything; otherwise only that
     * file changes, to the page built from the new content.
     */
    method Update(filename: string, content: Option<string>) returns (r: Response)
      modifies this
      ensures !Present(content) ==> r == Failure(400, "content is required") && files == old(files)
      ensures Present(content) && filename !in old(files) ==>
        r == Failure(404, "File does not exist") && files == old(files)
      ensures Present(content) && filename in old(files) ==>
        r == Message("File updated successfully") &&
        files == old(files)[filename := BuildHtmlDocument(template, css, content.value)]
    {
      if !Present(content) {
        return Failure(400, "content is required");
      }
      if filename !in files {
        return Failure(404, "File does not exist");
      }
      var finalHtml := BuildHtmlDocument(template, css, content.value);
      files := files[filename := finalHtml];
      r := Message("File updated successfully");
    }

    /** GET /files/:filename: the stored text verbatim, or 404 for an unknown name. */
    method Read(filename: string) returns (r: Response)
      ensures filename in files ==> r == Page(files[filename])
      ensures filename !in files ==> r == Failure(404, "File does not exist")
    {
      if filename !in files {
        return Failure(404, "File does not exist");
      }
      r := Page(files[filename]);
    }
  }
}
