/** The tag translator: English tags become their Chinese names, duplicates go, and the
    post is rewritten only when that changes something. */
module ConvertTags {
  import opened Wrappers
  import opened Text
  import opened Scanners

  /** English tag (lower case) to the tag that replaces it. */
  const TagMapping: map<string, string> := map[
    "food" := "美食", "travel" := "旅遊", "hotel" := "住宿", "unboxing" := "開箱",
    "parenting" := "親子", "foreign" := "國外旅遊", "wedding" := "婚禮", "life" := "生活",
    "japan" := "日本",
    "taipei" := "台北", "newtaipei" := "新北", "taoyuan" := "桃園", "yilan" := "宜蘭",
    "hsinchu" := "新竹", "miaoli" := "苗栗", "taichung" := "台中", "nantou" := "南投",
    "changhua" := "彰化", "chiayi" := "嘉義", "yunlin" := "雲林", "tainan" := "台南",
    "kaohsiung" := "高雄", "pingtung" := "屏東", "hualien" := "花蓮", "taitung" := "台東",
    "keelung" := "基隆",
    "pixnet" := "pixnet"]

  /** One tag: its mapping when its lower-case form has one, otherwise itself. */
  function ConvertTag(tag: string): string {
    var k := AsciiLower(tag);
    if k in TagMapping then TagMapping[k] else tag
  }

  /** `currentTags.map(...)`: a tag is replaced only when its lower-case form is a key,
      and then by a value of the table; every result converts to itself. */
  function ConvertAll(tags: seq<string>): (r: seq<string>)
    ensures |r| == |tags|
    ensures forall i | 0 <= i < |tags| && AsciiLower(tags[i]) !in TagMapping :: r[i] == tags[i]
    ensures forall i | 0 <= i < |tags| && AsciiLower(tags[i]) in TagMapping :: r[i] in TagMapping.Values
    ensures forall i | 0 <= i < |tags| :: ConvertTag(r[i]) == r[i]
  {
    var r := seq(|tags|, i requires 0 <= i < |tags| => ConvertTag(tags[i]));
    ConvertTagsIdempotent(tags, r);
    r
  }

  lemma ConvertTagsIdempotent(tags: seq<string>, r: seq<string>)
    requires |r| == |tags| && forall i | 0 <= i < |tags| :: r[i] == ConvertTag(tags[i])
    ensures forall i | 0 <= i < |tags| :: ConvertTag(r[i]) == r[i]
  {
    forall i | 0 <= i < |tags| {
      ConvertTagIdempotent(tags[i]);
    }
  }

  /** `[...new Set(currentTags.map(...))]`: the converted tags without repetitions. */
  function Converted(tags: seq<string>): seq<string> {
    Dedupe(ConvertAll(tags))
  }

  /** Whether `convertTags` writes the file, as the script decides it: it skips only when
      the list kept its length, every old tag is still there or has a mapping, and no tag
      has a mapping different from itself. */
  predicate Rewrites(current: seq<string>) {
    var unique := Converted(current);
    !(|current| == |unique|
      && (forall t <- current :: t in unique || AsciiLower(t) in TagMapping)
      && !(exists t <- current :: AsciiLower(t) in TagMapping && TagMapping[AsciiLower(t)] != t))
  }

  /** The script writes exactly when deduplication shortened the list or some tag is
      translated into something else. */
  lemma RewritesIff(current: seq<string>)
    ensures Rewrites(current) <==> |Converted(current)| < |current| || exists t <- current :: ConvertTag(t) != t
  {
    var unique := Converted(current);
    var all := ConvertAll(current);
    if |unique| == |current| && forall t <- current :: ConvertTag(t) == t {
      forall t <- current
        ensures t in unique
      {
        var i :| 0 <= i < |current| && current[i] == t;
        assert all[i] == t;
        assert all[i] in all;
      }
    }
  }

  lemma LowerOfLower(s: string)
    requires forall c <- s :: !('A' <= c <= 'Z')
    ensures AsciiLower(s) == s
  {
    forall i | 0 <= i < |s|
      ensures AsciiLower(s)[i] == s[i]
    {
      assert s[i] in s;
    }
  }

  /** Every key is an English word in lower case. */
  lemma KeysAreLower()
    ensures forall k <- TagMapping :: |k| > 0 && 'a' <= k[0] <= 'z'
  {
  }

  /** Every replacement is `pixnet` or starts with a character past the ASCII letters. */
  lemma ValuesAreChinese()
    ensures forall v <- TagMapping.Values :: v == "pixnet" || (|v| > 0 && v[0] > 'z')
  {
  }

  /** Every replacement is non-empty and holds only lower-case ASCII letters and characters
      past them, so no upper-case letter, comma or `]`. */
  lemma ValuesArePlain()
    ensures forall v <- TagMapping.Values :: v != "" && forall c <- v :: 'a' <= c <= 'z' || c > 'z'
  {
  }

  lemma PlainTag(v: string)
    requires v != "" && forall c <- v :: 'a' <= c <= 'z' || c > 'z'
    ensures Writable(v) && ']' !in v && AsciiLower(v) == v
  {
    LowerOfLower(v);
  }

  /** Every replacement is a tag the list syntax carries and is its own conversion, so a
      converted tag converts to itself. */
  lemma MappedValue(k: string)
    requires k in TagMapping
    ensures ConvertTag(TagMapping[k]) == TagMapping[k]
    ensures Writable(TagMapping[k]) && ']' !in TagMapping[k]
  {
    var v := TagMapping[k];
    assert v in TagMapping.Values;
    ValuesAreChinese();
    ValuesArePlain();
    PlainTag(v);
    if v != "pixnet" {
      KeysAreLower();
      assert v !in TagMapping;
    }
  }

  /** Converting twice is converting once. */
  lemma ConvertTagIdempotent(tag: string)
    ensures ConvertTag(ConvertTag(tag)) == ConvertTag(tag)
  {
    var k := AsciiLower(tag);
    if k in TagMapping {
      MappedValue(k);
    }
  }

  /** A converted list is left as it is by a second conversion, and the script would not
      write it again. */
  lemma ConvertedIsFixed(tags: seq<string>)
    ensures Converted(Converted(tags)) == Converted(tags)
    ensures !Rewrites(Converted(tags))
  {
    var c := Converted(tags);
    var all := ConvertAll(tags);
    forall i | 0 <= i < |c|
      ensures ConvertTag(c[i]) == c[i]
    {
      assert c[i] in all;
      var j :| 0 <= j < |all| && all[j] == c[i];
      ConvertTagIdempotent(tags[j]);
    }
    assert ConvertAll(c) == c;
    DedupeDistinct(c);
    RewritesIff(c);
  }

  /** `convertTags` on the text of a post: the new text when the file is written, `None`
      when it is left alone (no tag list, or nothing to convert). */
  function ConvertFile(content: string): Option<string> {
    var current := ReadTags(content);
    if current.None? || !Rewrites(current.value) then None
    else Some(RewriteTags(content, Converted(current.value)))
  }

  /** After a rewrite, the tags read from the post are the converted ones. */
  lemma ConvertFileReadsBack(content: string)
    requires ConvertFile(content).Some?
    ensures ReadTags(ConvertFile(content).value) == Some(Converted(ReadTags(content).value))
  {
    var current := ReadTags(content).value;
    ReadTagsClean(content);
    var all := ConvertAll(current);
    forall t <- Converted(current)
      ensures Writable(t) && ']' !in t
    {
      var j :| 0 <= j < |all| && all[j] == t;
      var k := AsciiLower(current[j]);
      if k in TagMapping {
        MappedValue(k);
      } else {
        assert current[j] in current;
      }
    }
    RewriteReadsBack(content, Converted(current));
  }

  /** Running the script a second time leaves the post alone. */
  lemma ConvertFileTwice(content: string)
    requires ConvertFile(content).Some?
    ensures ConvertFile(ConvertFile(content).value).None?
  {
    ConvertFileReadsBack(content);
    ConvertedIsFixed(ReadTags(content).value);
  }
}
