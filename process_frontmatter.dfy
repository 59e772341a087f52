/**
 * Turns one post's raw front matter and file name into the page-ready post
 * metadata: topics from the keywords, slug from the file name, url from the
 * base url and the slug, every other field passed through.
 */
module Frontmatter {
  import opened Wrappers
  import opened JsString
  import opened PostTopics

  /** The base url used when the deployment provides none. */
  const DefaultBaseUrl: string := "http://localhost:3000"
  /** The separator between keywords in the `keywords` field. */
  const KeywordSeparator: string := ", "
  /** The extension of post files; the slug is what precedes it. */
  const PostExtension: string := ".mdx"
  /** The fields the processor adds; raw keys with these names are overwritten. */
  const DerivedKeys: set<string> := {"topics", "slug", "url"}

  /**
   * The front matter as read from a post file: the declared fields, and any
   * further keys of the file's metadata block in `extra`. `extra` holds only
   * undeclared keys: a declared field's name (title, description, type,
   * keywords, ogImageUrl, ogImageWidth, ogImageHeight, postnum) is never one of
   * its keys, since an object stores each property once.
   */
  datatype UnprocessedMetadata = UnprocessedMetadata(
    title: Option<string>,
    description: string,
    pageType: Option<string>,
    keywords: Option<string>,
    ogImageUrl: Option<string>,
    ogImageWidth: Option<string>,
    ogImageHeight: Option<string>,
    postnum: string,
    extra: map<string, string>)

  /** The processed metadata: the raw fields plus topics, slug and url. */
  datatype PostMetadata = PostMetadata(
    title: Option<string>,
    description: string,
    pageType: Option<string>,
    keywords: Option<string>,
    ogImageUrl: Option<string>,
    ogImageWidth: Option<string>,
    ogImageHeight: Option<string>,
    postnum: string,
    extra: map<string, string>,
    topics: seq<PostTopic>,
    slug: string,
    url: string)

  /** The deployment's url when it is set, otherwise the local default. */
  function BaseUrl(deploymentUrl: Option<string>): (r: string)
    ensures deploymentUrl.Some? ==> r == deploymentUrl.value
    ensures deploymentUrl.None? ==> r == DefaultBaseUrl
  {
    deploymentUrl.GetOr(DefaultBaseUrl)
  }

  /**
   * The topics of a keywords field: none when the field is absent; otherwise
   * one per ", "-separated keyword, in order, so one more than the number of
   * separators.
   */
  function TopicsOf(keywords: Option<string>): (r: seq<PostTopic>)
    ensures keywords.None? ==> r == []
    ensures keywords.Some? ==>
              |r| == Count(keywords.value, KeywordSeparator) + 1
              && |r| == |Split(keywords.value, KeywordSeparator)|
    ensures keywords.Some? ==>
              forall i :: 0 <= i < |r| ==> r[i] == ToPostTopic(Split(keywords.value, KeywordSeparator)[i])
  {
    match keywords
    case None => []
    case Some(k) =>
      var tokens := Split(k, KeywordSeparator);
      SplitCount(k, KeywordSeparator);
      seq(|tokens|, i requires 0 <= i < |tokens| => ToPostTopic(tokens[i]))
  }

  /** The url of a post: the base url, "/posts/", then the slug. */
  function PostUrl(baseUrl: string, slug: string): (r: string)
    ensures |r| == |baseUrl| + 7 + |slug|
    ensures r[..|baseUrl|] == baseUrl
    ensures r[|baseUrl|..|baseUrl| + 7] == "/posts/"
    ensures r[|baseUrl| + 7..] == slug
  {
    baseUrl + "/posts/" + slug
  }

  /**
   * The processed metadata for the post in `filename` with raw front matter
   * `fm`, given the base url of the site.
   */
  function ProcessFrontmatter(baseUrl: string, filename: string, fm: UnprocessedMetadata): (p: PostMetadata)
    ensures p.topics == TopicsOf(fm.keywords)
    ensures p.slug <= filename && !Contains(p.slug, PostExtension)
    ensures p.slug == filename || OccursAt(filename, PostExtension, |p.slug|)
    ensures p.url == PostUrl(baseUrl, p.slug)
    ensures p.title == fm.title && p.description == fm.description && p.pageType == fm.pageType
    ensures p.keywords == fm.keywords && p.postnum == fm.postnum
    ensures p.ogImageUrl == fm.ogImageUrl && p.ogImageWidth == fm.ogImageWidth
    ensures p.ogImageHeight == fm.ogImageHeight
    ensures p.extra.Keys == fm.extra.Keys - DerivedKeys
    ensures forall k :: k in p.extra ==> p.extra[k] == fm.extra[k]
  {
    var slug := PrefixBefore(filename, PostExtension);
    PieceFree(filename, PostExtension, 0, |slug|);
    PostMetadata(
      fm.title, fm.description, fm.pageType, fm.keywords,
      fm.ogImageUrl, fm.ogImageWidth, fm.ogImageHeight, fm.postnum,
      fm.extra - DerivedKeys,
      TopicsOf(fm.keywords), slug, PostUrl(baseUrl, slug))
  }

  /** The raw front matter that processed metadata was made from, as far as it survives. */
  function Unprocessed(p: PostMetadata): (fm: UnprocessedMetadata)
    ensures fm.keywords == p.keywords && fm.extra == p.extra
  {
    UnprocessedMetadata(
      p.title, p.description, p.pageType, p.keywords,
      p.ogImageUrl, p.ogImageWidth, p.ogImageHeight, p.postnum, p.extra)
  }

  /** Processing only adds fields: forgetting them gives back the raw front matter. */
  lemma NothingElseChanges(baseUrl: string, filename: string, fm: UnprocessedMetadata)
    requires fm.extra.Keys !! DerivedKeys
    ensures Unprocessed(ProcessFrontmatter(baseUrl, filename, fm)) == fm
  {
    assert fm.extra - DerivedKeys == fm.extra;
  }

  /** An absent keywords field gives no topics. */
  lemma AbsentKeywords()
    ensures TopicsOf(None) == []
  {
  }

  /** A present but empty keywords field still splits into one (empty) keyword, so one Unknown. */
  lemma EmptyKeywords()
    ensures TopicsOf(Some("")) == [Unknown]
  {
    assert IndexOf("", KeywordSeparator, 0) == None;
    assert Split("", KeywordSeparator) == [""];
  }

  /** A present keywords field always gives at least one topic. */
  lemma PresentKeywordsNonEmpty(k: string)
    ensures |TopicsOf(Some(k))| >= 1
  {
  }

  /** Neither ", " nor ".mdx" overlaps itself. */
  lemma SeparatorsBorderFree()
    ensures BorderFree(KeywordSeparator)
    ensures BorderFree(PostExtension)
  {
    assert KeywordSeparator[..1][0] != KeywordSeparator[1..][0];
    assert PostExtension[..1][0] != PostExtension[3..][0];
    assert PostExtension[..2] != PostExtension[2..];
    assert PostExtension[..3] != PostExtension[1..];
  }

  /** The three keywords of the example, joined with ", ". */
  lemma ScenarioJoin()
    ensures Join(["haskell", "testing", "made-up-tag"], KeywordSeparator) == "haskell, testing, made-up-tag"
  {
    var parts := ["haskell", "testing", "made-up-tag"];
    assert parts[1..][1..] == ["made-up-tag"];
    assert Join(parts[1..], KeywordSeparator) == "testing, made-up-tag";
  }

  /** None of the three keywords of the example contains ", ". */
  lemma ScenarioPiecesFree()
    ensures PartsFree(["haskell", "testing", "made-up-tag"], KeywordSeparator)
  {
    AbsentFirstChar("haskell", KeywordSeparator);
    AbsentFirstChar("testing", KeywordSeparator);
    AbsentFirstChar("made-up-tag", KeywordSeparator);
  }

  /** "haskell, testing, made-up-tag" splits into its three keywords. */
  lemma ScenarioSplit()
    ensures Split("haskell, testing, made-up-tag", KeywordSeparator) == ["haskell", "testing", "made-up-tag"]
  {
    ScenarioJoin();
    ScenarioPiecesFree();
    SeparatorsBorderFree();
    SplitJoin(["haskell", "testing", "made-up-tag"], KeywordSeparator);
  }

  /** The lookups of the example's three keywords. */
  lemma ScenarioLookups()
    ensures ToPostTopic("haskell") == Haskell
    ensures ToPostTopic("testing") == Testing
    ensures ToPostTopic("made-up-tag") == Unknown
  {
  }

  /** Keywords that split into three tokens give the three tokens' topics. */
  lemma TopicsOfThree(k: string, a: string, b: string, c: string, ta: PostTopic, tb: PostTopic, tc: PostTopic)
    requires Split(k, KeywordSeparator) == [a, b, c]
    requires ToPostTopic(a) == ta && ToPostTopic(b) == tb && ToPostTopic(c) == tc
    ensures TopicsOf(Some(k)) == [ta, tb, tc]
  {
  }

  /** "haskell, testing, made-up-tag" gives Haskell, Testing, Unknown, in order. */
  lemma KeywordsScenario()
    ensures TopicsOf(Some("haskell, testing, made-up-tag")) == [Haskell, Testing, Unknown]
  {
    ScenarioSplit();
    ScenarioLookups();
    TopicsOfThree("haskell, testing, made-up-tag", "haskell", "testing", "made-up-tag",
                  Haskell, Testing, Unknown);
  }

  /** The string values of a list of topics, used to state that recognised keywords can be recovered. */
  function Values(topics: seq<PostTopic>): (r: seq<string>)
    ensures |r| == |topics|
  {
    seq(|topics|, i requires 0 <= i < |topics| => Value(topics[i]))
  }

  /**
   * Keywords that are all recognised can be recovered from the topics: the
   * values joined with ", " are the original field.
   */
  lemma RecognisedKeywordsRecoverable(k: string)
    requires forall t :: t in TopicsOf(Some(k)) ==> t != Unknown
    ensures Join(Values(TopicsOf(Some(k))), KeywordSeparator) == k
  {
    var topics := TopicsOf(Some(k));
    var tokens := Split(k, KeywordSeparator);
    forall i | 0 <= i < |topics|
      ensures Values(topics)[i] == tokens[i]
    {
      assert topics[i] in topics;
    }
    assert Values(topics) == tokens;
    JoinSplit(k, KeywordSeparator);
  }

  /** A file name made of a name free of ".mdx" and the extension has that name as its slug. */
  lemma SlugOfPostFile(name: string)
    requires !Contains(name, PostExtension)
    ensures PrefixBefore(name + PostExtension, PostExtension) == name
  {
    var f := name + PostExtension;
    SeparatorsBorderFree();
    assert f[0..] == name + PostExtension + "";
    FirstAfterFree(f, 0, name, PostExtension, "");
    SplitFromSome(f, PostExtension, 0, |name|);
    assert f[0..|name|] == name;
  }

  /** A file name without ".mdx" is its own slug. */
  lemma SlugWithoutExtension(filename: string)
    requires !Contains(filename, PostExtension)
    ensures PrefixBefore(filename, PostExtension) == filename
  {
  }

  /** Re-deriving the slug from slug plus extension reproduces the slug. */
  lemma SlugIdempotent(filename: string)
    ensures var slug := PrefixBefore(filename, PostExtension);
            PrefixBefore(slug + PostExtension, PostExtension) == slug
  {
    var slug := PrefixBefore(filename, PostExtension);
    PieceFree(filename, PostExtension, 0, |slug|);
    assert filename[..|slug|] == slug;
    SlugOfPostFile(slug);
  }
}
