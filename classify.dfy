/**
 * The two content-type classifiers of the tag generator: `get_new_existing_tag`
 * and `get_post_page_tag`. Both are ordered, case-sensitive substring rules
 * built on Python's `pat in text` test, which is modelled here by an
 * executable left-to-right search proved against a declarative definition
 * of "occurs somewhere in".
 */
module Classify {

  /** `pat` occurs in `s` starting at index `i`. */
  ghost predicate OccursAt(s: string, pat: string, i: int)
  {
    0 <= i && i + |pat| <= |s| && s[i..i + |pat|] == pat
  }

  /** Python's `pat in s` for strings: some occurrence of `pat` exists. */
  ghost predicate Contains(s: string, pat: string)
  {
    exists i :: OccursAt(s, pat, i)
  }

  /** Searches `s` from index `k` on for an occurrence of `pat`. */
  function ContainsFrom(s: string, pat: string, k: nat): (found: bool)
    requires k <= |s|
    ensures found <==> exists i :: k <= i && OccursAt(s, pat, i)
    decreases |s| - k
  {
    if k + |pat| > |s| then false
    else if s[k..k + |pat|] == pat then assert OccursAt(s, pat, k); true
    else ContainsFrom(s, pat, k + 1)
  }

  /** The executable form of `pat in s`. */
  function HasSubstring(s: string, pat: string): (found: bool)
    ensures found <==> Contains(s, pat)
  {
    ContainsFrom(s, pat, 0)
  }

  /** The values `get_new_existing_tag` can return. */
  datatype Novelty = New | Existing | Unknown

  /** The values `get_post_page_tag` can return. */
  datatype Placement = Post | Page | Unknown

  /** The text the source writes for a novelty value. */
  function NoveltyLabel(n: Novelty): (name: string)
    ensures name != [] && ',' !in name
  {
    match n
    case New => "New"
    case Existing => "Existing"
    case Unknown => "Unknown"
  }

  /** The text the source writes for a placement value. */
  function PlacementLabel(p: Placement): (name: string)
    ensures name != [] && ',' !in name
  {
    match p
    case Post => "Post"
    case Page => "Page"
    case Unknown => "Unknown"
  }

  /**
   * `get_new_existing_tag`: "New" anywhere wins, even beside "Update";
   * "Update" counts only when "New" is absent; otherwise `Unknown`.
   */
  function NewExistingTag(contentType: string): (n: Novelty)
    ensures n == New <==> Contains(contentType, "New")
    ensures n == Existing <==> !Contains(contentType, "New") && Contains(contentType, "Update")
    ensures n == Novelty.Unknown <==> !Contains(contentType, "New") && !Contains(contentType, "Update")
  {
    if HasSubstring(contentType, "New") then New
    else if HasSubstring(contentType, "Update") then Existing
    else Novelty.Unknown
  }

  /**
   * `get_post_page_tag`: "Post" anywhere wins, even beside "Page";
   * "Page" counts only when "Post" is absent; otherwise `Unknown`.
   */
  function PostPageTag(contentType: string): (p: Placement)
    ensures p == Post <==> Contains(contentType, "Post")
    ensures p == Page <==> !Contains(contentType, "Post") && Contains(contentType, "Page")
    ensures p == Placement.Unknown <==> !Contains(contentType, "Post") && !Contains(contentType, "Page")
  {
    if HasSubstring(contentType, "Post") then Post
    else if HasSubstring(contentType, "Page") then Page
    else Placement.Unknown
  }

  /** A pattern whose first character never appears in the text does not occur in it. */
  lemma FirstCharAbsent(s: string, pat: string)
    requires |pat| > 0 && pat[0] !in s
    ensures !Contains(s, pat)
  {
  }

  /**
   * A pattern whose first character appears in the text only at index `j`,
   * and which does not occur at `j`, does not occur at all.
   */
  lemma AbsentUnlessAt(s: string, pat: string, j: nat)
    requires |pat| > 0 && j < |s|
    requires pat[0] !in s[..j] && pat[0] !in s[j + 1..]
    requires !OccursAt(s, pat, j)
    ensures !Contains(s, pat)
  {
  }

  /** An occurrence inside a part of the text is an occurrence in the whole text. */
  lemma ContainsInContext(pre: string, s: string, post: string, pat: string)
    requires Contains(s, pat)
    ensures Contains(pre + s + post, pat)
  {
    var i :| OccursAt(s, pat, i);
    var whole := pre + s + post;
    assert whole[|pre| + i..|pre| + i + |pat|] == s[i..i + |pat|];
    assert OccursAt(whole, pat, |pre| + i);
  }

  /** The empty content type is classified `Unknown` by both rules. */
  lemma EmptyContentTypeIsUnknown()
    ensures NewExistingTag("") == Novelty.Unknown
    ensures PostPageTag("") == Placement.Unknown
  {
  }

  /** "New Post" is a new post. */
  lemma SampleNewPost()
    ensures NewExistingTag("New Post") == New && PostPageTag("New Post") == Post
  {
    assert OccursAt("New Post", "New", 0) && OccursAt("New Post", "Post", 4);
  }

  /** "Update Page" is an existing page: "Update" counts when "New" is absent, "Page" when "Post" is. */
  lemma SampleUpdatePage()
    ensures NewExistingTag("Update Page") == Existing && PostPageTag("Update Page") == Page
  {
    assert OccursAt("Update Page", "Update", 0) && OccursAt("Update Page", "Page", 7);
    FirstCharAbsent("Update Page", "New");
    AbsentUnlessAt("Update Page", "Post", 7);
  }

  /** "Random text" has neither keyword pair and is `Unknown` for both. */
  lemma SampleRandomText()
    ensures NewExistingTag("Random text") == Novelty.Unknown
    ensures PostPageTag("Random text") == Placement.Unknown
  {
    FirstCharAbsent("Random text", "New");
    FirstCharAbsent("Random text", "Update");
    FirstCharAbsent("Random text", "Post");
    FirstCharAbsent("Random text", "Page");
  }

  /** Matching is case-sensitive: lower-case keywords are not recognised. */
  lemma CaseSensitive()
    ensures NewExistingTag("new post") == Novelty.Unknown
    ensures PostPageTag("new post") == Placement.Unknown
  {
    FirstCharAbsent("new post", "New");
    FirstCharAbsent("new post", "Update");
    FirstCharAbsent("new post", "Post");
    FirstCharAbsent("new post", "Page");
  }

  /**
   * "New" anywhere in a content type makes it `New`, whatever surrounds it;
   * the second clause is the instance where "Update" comes right before it.
   */
  lemma NewWinsAnywhere(pre: string, post: string)
    ensures NewExistingTag(pre + "New" + post) == New
    ensures NewExistingTag(pre + "Update" + "New" + post) == New
  {
    var a := pre + "New" + post;
    assert OccursAt("New", "New", 0);
    ContainsInContext(pre, "New", post, "New");
    assert OccursAt(a, "New", |pre|);
    var b := pre + "Update" + "New" + post;
    ContainsInContext(pre + "Update", "New", post, "New");
  }

  /**
   * "Post" anywhere in a content type makes it `Post`, whatever surrounds it;
   * the second clause is the instance where "Page" comes right before it.
   */
  lemma PostWinsAnywhere(pre: string, post: string)
    ensures PostPageTag(pre + "Post" + post) == Post
    ensures PostPageTag(pre + "Page" + "Post" + post) == Post
  {
    assert OccursAt("Post", "Post", 0);
    ContainsInContext(pre, "Post", post, "Post");
    ContainsInContext(pre + "Page", "Post", post, "Post");
  }
}
