# Post metadata normaliser

A Dafny model of the step of the portfolio and blog site that turns a post's
raw front matter into the metadata the post pages use. The site has two such
pieces of logic.

- **Topic normaliser** (`PostTopics`). A closed enumeration of post topics:
  seven real topics plus `Unknown`, each with its string value. A constant
  table maps seven exact keyword strings to topics. `ToPostTopic` looks a
  keyword up in that table and falls back to `Unknown`.
- **Front-matter processor** (`Frontmatter`). `ProcessFrontmatter` takes the
  site's base url, a post's file name and its raw front matter. It computes:
  - the topics: the optional `keywords` string is split on `", "` and every
    token goes through `ToPostTopic`;
  - the slug: the part of the file name before the first `".mdx"`;
  - the url: base url, then `/posts/`, then the slug.

  Every other field is copied through unchanged. `BaseUrl` models the choice
  between the deployment's url and the local default
  `http://localhost:3000`.

JavaScript's `String.prototype.split` and `Array.prototype.join` are modelled
exactly in `JsString`, for a non-empty string separator and no limit:
- `IndexOf` is the forward search;
- `Split` cuts at each match and keeps the remainder as the last piece, so
  `"".split(", ")` is `[""]`;
- `Join` is the inverse used to state round trips;
- `Count` is an independent left-to-right count of non-overlapping matches.

Two separator properties carry the round trip. A separator is *border-free*
when no proper prefix of it is also a suffix, so two of its occurrences never
overlap. Both `", "` and `".mdx"` are border-free (`SeparatorsBorderFree`).
Splitting a join of pieces that do not contain such a separator gives the
pieces back (`SplitJoin`).

`Option` comes from the small `Wrappers` module.

Behaviour worth knowing:
- An absent `keywords` field gives no topics. A present but empty one gives
  `[Unknown]`, because splitting `""` yields one empty token (`EmptyKeywords`).
- The lookup in `src/lib/types/PostTopic.ts:25` is by exact string. Nothing
  lowercases or trims the keyword (`ExactLookup`).
- The slug is the part before the first `".mdx"`
  (`src/lib/processFrontmatter.ts:13`), not the file name minus a final
  extension.
- `processFrontmatter` never demands a `url` field; the url is always derived
  from the base url and the slug.

## Model

| member | source | states |
|---|---|---|
| PostTopics.ToPostTopic | src/lib/types/PostTopic.ts:24-26 | total; a topic other than Unknown is returned exactly when the keyword is the value of a real topic, and then its value is that keyword |
| PostTopics.ValueInjective | src/lib/types/PostTopic.ts:1-10 | distinct enum members have distinct string values |
| PostTopics.TableMatchesEnum | src/lib/types/PostTopic.ts:12-20 | every table key maps to a real topic whose value is that key; every real topic's value is a key that maps back to it |
| PostTopics.KnownKeywords | src/lib/types/PostTopic.ts:12-20 | "haskell", "functional programming" and "hson" map to their own members |
| PostTopics.ExactLookup | src/lib/types/PostTopic.ts:25 | "Haskell", " haskell", "haskell " and "" all map to Unknown: no case folding, no trimming |
| PostTopics.UnknownValueIsNotAKey | src/lib/types/PostTopic.ts:9-20 | "unknown", the catch-all's own value, is not a key and maps to Unknown |
| PostTopics.RoundTrip | src/lib/types/PostTopic.ts:1-26 | looking up any topic's value gives that topic back, Unknown included |
| PostTopics.Idempotent | src/lib/types/PostTopic.ts:24-26 | normalising the value of a normalised keyword gives the same topic |
| JsString.IndexOf | src/lib/processFrontmatter.ts:12-13 | the search result is a real occurrence of the separator at or after the start position |
| JsString.IndexOfFirst | src/lib/processFrontmatter.ts:12-13 | the search finds the first occurrence, and finds nothing exactly when there is no occurrence at or after the start |
| JsString.Split | src/lib/processFrontmatter.ts:12 | split always yields at least one piece |
| JsString.SplitPiecesFree | src/lib/processFrontmatter.ts:12 | no piece of a split contains the separator |
| JsString.JoinSplit | src/lib/processFrontmatter.ts:12 | joining the pieces with the separator gives the original string back |
| JsString.SplitJoin | src/lib/processFrontmatter.ts:12 | for a border-free separator, splitting the join of at least one piece that does not contain the separator gives those pieces back |
| JsString.SplitSingle | src/lib/processFrontmatter.ts:12-13 | the split is the whole string alone exactly when the separator does not occur in it |
| JsString.SplitCount | src/lib/processFrontmatter.ts:12 | a split has one piece more than there are non-overlapping occurrences of the separator |
| JsString.PrefixBefore | src/lib/processFrontmatter.ts:13 | the first piece is a prefix with no match starting inside it; it ends where the first match starts, or is the whole string when there is none |
| Frontmatter.BaseUrl | src/lib/processFrontmatter.ts:4 | the deployment url when one is set, otherwise "http://localhost:3000" |
| Frontmatter.TopicsOf | src/lib/processFrontmatter.ts:12 | absent keywords give no topics; present keywords give one topic per token, in order, each the lookup of its token, so one more than the number of ", " separators |
| Frontmatter.PostUrl | src/lib/processFrontmatter.ts:14 | the url is the base url, then "/posts/", then the slug, and nothing else |
| Frontmatter.ProcessFrontmatter | src/lib/processFrontmatter.ts:8-21 | topics come from the keywords; the slug is a prefix of the file name free of ".mdx" and ending where the first ".mdx" starts, or the whole name; the url is built from base url and slug; every declared field is copied; extra keys are kept, with their values, except the three derived names |
| Frontmatter.NothingElseChanges | src/lib/processFrontmatter.ts:15-20 | when the raw record has no keys named topics, slug or url, dropping the derived fields gives back exactly the raw record |
| Frontmatter.AbsentKeywords | src/lib/processFrontmatter.ts:12 | no keywords field gives an empty topic list |
| Frontmatter.EmptyKeywords | src/lib/processFrontmatter.ts:12 | an empty keywords string gives exactly [Unknown] |
| Frontmatter.PresentKeywordsNonEmpty | src/lib/processFrontmatter.ts:12 | any present keywords string gives at least one topic |
| Frontmatter.SeparatorsBorderFree | src/lib/processFrontmatter.ts:12-13 | neither ", " nor ".mdx" can overlap itself |
| Frontmatter.ScenarioSplit | src/lib/processFrontmatter.ts:12 | "haskell, testing, made-up-tag" splits into its three keywords |
| Frontmatter.KeywordsScenario | src/lib/processFrontmatter.ts:12 | "haskell, testing, made-up-tag" gives Haskell, Testing, Unknown, in that order |
| Frontmatter.RecognisedKeywordsRecoverable | src/lib/processFrontmatter.ts:12 | when every keyword is recognised, joining the topics' values with ", " gives the keywords string back |
| Frontmatter.SlugOfPostFile | src/lib/processFrontmatter.ts:13 | the slug of name + ".mdx", for a name free of ".mdx", is that name |
| Frontmatter.SlugWithoutExtension | src/lib/processFrontmatter.ts:13 | a file name without ".mdx" is its own slug |
| Frontmatter.SlugIdempotent | src/lib/processFrontmatter.ts:13 | deriving the slug again from slug + ".mdx" gives the same slug |

## Left out

- `src/lib/getPosts.ts`: reading the posts directory, parsing front matter from the files and `Promise.all` are file I/O and asynchrony. Its call at line 15 passes one argument, not the two that `processFrontmatter` declares at `src/lib/processFrontmatter.ts:8-11`. The model follows the two-argument definition.
- The `VERCEL_URL` environment variable (`src/lib/processFrontmatter.ts:4`) is environment access. The processor takes the base url as a parameter, and `BaseUrl` models the fallback given the variable's value as an `Option`.
- PostTopics.ToPostTopic: the table is a closed finite map. A JavaScript object lookup would also find inherited members for keys such as "toString"; the model gives Unknown for those.
- `split` with an empty separator or a limit argument is not modelled. Only a non-empty separator is used here.
- Strings are Dafny `seq<char>`. JavaScript strings are UTF-16 code units; the split and search behave the same on either representation, and no encoding is modelled.
- Frontmatter.ProcessFrontmatter: the front matter's undeclared keys are modelled as a string-to-string map. The values of other YAML types, and the JavaScript property order of the spread, are not modelled.
- `src/lib/portfolio.ts` and the portfolio, post-card and layout components: static data and presentation, with no logic to state.
