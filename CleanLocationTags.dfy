/** The location-tag cleaner: generic tags are dropped, a location tag survives only when
    the title names it, and the post is rewritten only when some tag went. */
module CleanLocationTags {
  import opened Wrappers
  import opened Text
  import opened Scanners
  import opened FrontMatter

  /** Place names that are kept only when the title mentions them. */
  const LocationTags: seq<string> :=
    ["台北", "新北", "桃園", "台中", "高雄", "台南", "基隆", "新竹", "嘉義", "彰化", "宜蘭",
     "花蓮", "台東", "屏東", "苗栗", "雲林", "南投", "澎湖", "金門", "馬祖", "日本", "韓國",
     "泰國", "香港", "澳門"]

  /** Tags removed from every post. */
  const GenericTags: seq<string> := ["美食", "旅遊", "生活"]

  /** Whether a tag stays on a post with this title. */
  predicate Keeps(title: string, tag: string) {
    if tag in GenericTags then false
    else if tag in LocationTags then Contains(title, tag)
    else true
  }

  function KeepFor(title: string): string -> bool {
    tag => Keeps(title, tag)
  }

  /** The tags left on a post with this title: those of `tags` that are not generic and,
      if they name a place, whose place the title mentions, in their original order. */
  function CleanTags(tags: seq<string>, title: string): (r: seq<string>)
    ensures IsSubsequence(r, tags)
    ensures forall t :: t in r <==> t in tags && t !in GenericTags && (t in LocationTags ==> Contains(title, t))
  {
    FilterIsSubsequence(tags, KeepFor(title));
    Filter(tags, KeepFor(title))
  }

  /** Cleaning cleaned tags again removes nothing. */
  lemma CleanTagsIdempotent(tags: seq<string>, title: string)
    ensures CleanTags(CleanTags(tags, title), title) == CleanTags(tags, title)
  {
    FilterIdempotent(tags, KeepFor(title));
  }

  /** Cleaning removes something exactly when some tag is generic or names a place the
      title does not mention. */
  lemma CleanTagsShrinks(tags: seq<string>, title: string)
    ensures |CleanTags(tags, title)| < |tags| <==> exists t <- tags :: !Keeps(title, t)
  {
    FilterSameLength(tags, KeepFor(title));
  }

  /** The title `processFile` checks place names against: the quoted `title:` value of
      the front matter, or the empty string. */
  function TitleIn(fm: string): string {
    var t := QuotedValue(fm, "title:");
    if t.Some? then t.value else ""
  }

  /** `processFile` on the text of a post: the new text when the file is written, `None`
      when it is left alone (no front matter, no tag list in it, or no tag removed). The
      tags are read in the front matter; the rewrite applies to the first tag list of the
      whole post. */
  function ProcessFile(content: string): Option<string> {
    var fm := Block(content);
    if fm.None? then None
    else
      var current := ReadTags(fm.value);
      if current.None? then None
      else
        var filtered := CleanTags(current.value, TitleIn(fm.value));
        if |filtered| == |current.value| then None
        else Some(RewriteTags(content, filtered))
  }

  /** A post is rewritten exactly when it has front matter with a tag list and one of
      its tags is generic or names a place the title does not mention. */
  lemma ProcessFileWrites(content: string)
    ensures ProcessFile(content).Some?
            <==> Block(content).Some? && ReadTags(Block(content).value).Some?
                 && exists t <- ReadTags(Block(content).value).value :: !Keeps(TitleIn(Block(content).value), t)
  {
    var fm := Block(content);
    if fm.Some? && ReadTags(fm.value).Some? {
      CleanTagsShrinks(ReadTags(fm.value).value, TitleIn(fm.value));
    }
  }

  /** After a rewrite, the tags read from the post are the cleaned ones. */
  lemma ProcessFileReadsBack(content: string)
    requires ProcessFile(content).Some?
    ensures var fm := Block(content).value;
            ReadTags(ProcessFile(content).value)
            == Some(CleanTags(ReadTags(fm).value, TitleIn(fm)))
  {
    var fm := Block(content).value;
    var current := ReadTags(fm).value;
    var filtered := CleanTags(current, TitleIn(fm));
    ReadTagsInBlock(content);
    ReadTagsClean(fm);
    RewriteReadsBack(content, filtered);
  }
}
