/**
 * The computed data of posts/posts.11tydata.js, which the static-site
 * generator Eleventy evaluates for every page of the posts directory:
 * `permalink` keeps drafts from being written out, and `tags` puts every
 * other post into the `posts` collection.
 */
module PostsData {
  import opened Wrappers

  const POSTS_TAG := "posts"

  /** A JavaScript array of tag names; callers share it by reference. */
  class TagList {
    var items: seq<string>

    constructor (initial: seq<string>)
      ensures items == initial
    {
      items := initial;
    }

    /** `Array.prototype.push` of one element. */
    method Push(tag: string)
      modifies this
      ensures items == old(items) + [tag]
    {
      items := items + [tag];
    }
  }

  /** The tag list `tags` leaves behind, from the draft flag and the tags before the call. */
  function TagsAfter(draft: bool, before: seq<string>): seq<string> {
    if draft then [] else before + [POSTS_TAG]
  }

  /** The data object of one page. `tags` is `null` when the front matter has none. */
  class PostData {
    var draft: bool
    var tags: TagList?

    constructor (isDraft: bool, tagList: TagList?)
      ensures draft == isDraft && tags == tagList
    {
      draft := isDraft;
      tags := tagList;
    }

    /** `permalink`: `false` for a draft, no value (undefined, no override) otherwise. */
    function Permalink(): (r: Option<bool>)
      reads this
      ensures r.Some? <==> draft
      ensures r.Some? ==> !r.value
    {
      if draft then Some(false) else None
    }

    /**
     * `tags`: for a post that is not a draft, `posts` is pushed onto the
     * page's own list, which is then returned; a draft gets a new empty list
     * and its own list is left alone. The push needs an existing list.
     */
    method ComputedTags() returns (r: TagList)
      requires !draft ==> tags != null
      modifies tags
      ensures r.items == TagsAfter(draft, if tags == null then [] else old(tags.items))
      ensures !draft ==> r == tags
      ensures draft ==> fresh(r) && (tags != null ==> unchanged(tags))
    {
      if !draft {
        tags.Push(POSTS_TAG);
        return tags;
      }
      r := new TagList([]);
    }
  }

  /** Outside drafts the list grows by exactly one entry and keeps every earlier one in place. */
  lemma TagsAfterAppends(before: seq<string>)
    ensures |TagsAfter(false, before)| == |before| + 1
    ensures TagsAfter(false, before)[..|before|] == before
    ensures TagsAfter(false, before)[|before|] == POSTS_TAG
  {
  }

  /** A draft's computed tags are empty, whatever it was tagged with. */
  lemma TagsAfterDraft(before: seq<string>)
    ensures TagsAfter(true, before) == []
  {
  }

  /** A page is in the `posts` collection exactly when its permalink is not overridden. */
  lemma InCollectionIffPublished(p: PostData, before: seq<string>)
    ensures POSTS_TAG in TagsAfter(p.draft, before) <==> p.Permalink().None?
  {
    if !p.draft {
      TagsAfterAppends(before);
    }
  }

  /** Computing the tags twice is not computing them once: `posts` is pushed twice. */
  lemma TagsAfterNotIdempotent(before: seq<string>)
    ensures TagsAfter(false, TagsAfter(false, before)) == before + [POSTS_TAG, POSTS_TAG]
    ensures TagsAfter(false, TagsAfter(false, before)) != TagsAfter(false, before)
  {
    assert |TagsAfter(false, TagsAfter(false, before))| == |before| + 2;
  }

  /** Two evaluations on the same page, as when the computed data is evaluated again. */
  method ComputeTagsTwice(p: PostData) returns (first: TagList, second: TagList)
    requires !p.draft && p.tags != null
    modifies p.tags
    ensures first == second == p.tags
    ensures p.tags.items == old(p.tags.items) + [POSTS_TAG, POSTS_TAG]
  {
    first := p.ComputedTags();
    second := p.ComputedTags();
    TagsAfterNotIdempotent(old(p.tags.items));
  }
}
