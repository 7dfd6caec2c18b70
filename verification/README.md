# Event slug derivation

This project models how the `gatsby-theme-events` theme gives every `Event`
node its `slug` field. The theme's `createResolvers` hook defines a `slugify`
function and resolves `Event.slug` as `slugify(source.name)`. `slugify` does four things:

1. It lower-cases the name.
2. It rewrites every maximal run of characters outside `[a-z0-9]` to a single `-`.
3. It strips a leading and a trailing `-`.
4. It builds `/${basePath}/${slug}` with `basePath = "/"` and collapses every run of `/` to one.

The model is three modules, one per concept:

- `Runs` (`runs.dfy`) defines `Squeeze` once: it rewrites each maximal run of a character class to one replacement character. Step 2 uses it with the class `[^a-z0-9]` and `-`. Step 4 uses it with `/` and `/`. `Squeeze` is proved equal to `SqueezeByRuns`, an independent reference that reads the global, greedy regular-expression replacement run by run.
- `Slug` (`slug.dfy`) has one function per step: `Lower`, `Collapse`, `Trim` and `Path`. They compose into `SlugText` and `Slugify`, and the module holds the lemmas about the whole pipeline.
- `Events` (`events.dfy`) holds the `Event` record and the `slug` resolver.

Strings are `seq<char>`. Every function is total: no input raises an error, and none of them has a precondition on the name.

An `Event` (`gatsby-theme-events/gatsby-node.js` lines 19-26) has the fields `id`, `name`, `location`, `startDate`, `endDate` and `url`, all strings here. Its `slug` field is not stored. The resolver computes it from `name`.

How step 3 behaves:

- `/(^-|-$)+/g` has no `m` flag, so `^` and `$` match only at the two ends of the string.
- It therefore removes at most one hyphen at each end, and `"---"` becomes `"-"`. `Trim` is exactly this: drop one leading `-`, then one trailing `-`.
- Step 2 never leaves two hyphens in a row, so after step 2 this is the same as removing every edge hyphen.

Where the hyphens go: steps 1-3 are the same as splitting the lower-cased name into its words and joining the non-empty words with single hyphens. A word is a maximal run of `[a-z0-9]`. `JoinedWords` states this reading on its own, and `SlugTextMatchesWords` proves it equal to the pipeline.

## Model

| member | source | states |
|---|---|---|
| Runs.Squeeze | gatsby-theme-events/gatsby-node.js:38 | The result is empty only for empty input. It starts (ends) with a class member exactly when the input does. The only class member in it is the replacement, and no two class members are adjacent. |
| Runs.LeadingRun | gatsby-theme-events/gatsby-node.js:38 | The greedy `+` match at the start of a string: every character before the returned length is in the class, and the next one, if any, is not. |
| Runs.SqueezeMatchesRuns | gatsby-theme-events/gatsby-node.js:38 | On every input, the one-character-lookahead `Squeeze` equals the reference reading of the global greedy replacement, which emits one replacement per maximal run. |
| Runs.KeepSqueeze | gatsby-theme-events/gatsby-node.js:38 | Squeezing keeps every character outside the class, in order, and adds none. |
| Runs.SqueezeFixpoint | gatsby-theme-events/gatsby-node.js:38 | A string is unchanged by squeezing if and only if it is already squeezed: the only class member is the replacement, and no two class members are adjacent. |
| Runs.SqueezeIdempotent | gatsby-theme-events/gatsby-node.js:38 | Squeezing twice gives the same result as squeezing once. |
| Runs.SqueezeAround | gatsby-theme-events/gatsby-node.js:38 | Squeezing `x`, a class member, then `y` gives squeezed `x` without a trailing replacement, one replacement, and squeezed `y` without a leading replacement. The runs on both sides of the member merge into a single replacement. |
| Slug.LowerChar | gatsby-theme-events/gatsby-node.js:37 | `A`-`Z` map to the letter at the same position in `a`-`z`. Every other character is unchanged. The result is never an upper-case ASCII letter. |
| Slug.Lower | gatsby-theme-events/gatsby-node.js:37 | The length is kept. Each character is lower-cased in place. No upper-case ASCII letter remains. A string with no upper-case letter is returned unchanged. |
| Slug.LowerIdempotent | gatsby-theme-events/gatsby-node.js:37 | Lower-casing twice is the same as lower-casing once. |
| Slug.Collapse | gatsby-theme-events/gatsby-node.js:38 | The output equals the run-by-run reading of `replace(/[^a-z0-9]+/g, "-")`. It uses only `[a-z0-9-]` and never holds `--`. It is empty only for empty input. It starts (ends) with `-` exactly when the input starts (ends) with a character outside `[a-z0-9]`. The letters and digits of the input are kept in order. |
| Slug.CollapseFixpoint | gatsby-theme-events/gatsby-node.js:38 | A string is unchanged by step 2 if and only if it is already lower-case letters and digits separated by single hyphens. |
| Slug.Trim | gatsby-theme-events/gatsby-node.js:39 | The result is the input with one leading `-` removed if there is one, and then one trailing `-` removed if one is left. Everything removed is a hyphen, and input without a hyphen at either end is returned unchanged. On hyphen-separated input, the result has no hyphen at either end. |
| Slug.TrimKeeps | gatsby-theme-events/gatsby-node.js:39 | Trimming keeps all letters and digits, in order. |
| Slug.TrimCollapseJoin | gatsby-theme-events/gatsby-node.js:38-39 | Steps 2-3 of `x`, a separator, then `y` give steps 2-3 of `x` and of `y`, joined by one `-` when both are non-empty. When one side is empty, the result is the other side. |
| Slug.TrimCollapseMatchesWords | gatsby-theme-events/gatsby-node.js:38-39 | On every string, steps 2-3 equal the string's words joined by single hyphens, with empty words dropped. |
| Slug.Path | gatsby-theme-events/gatsby-node.js:41 | For any base path and slug, the path starts with `/` and never contains `//`. |
| Slug.PathKeeps | gatsby-theme-events/gatsby-node.js:41 | The path's non-slash characters are those of the base path followed by those of the slug, in order. Collapsing slashes loses nothing else. |
| Slug.PathUnderRoot | gatsby-theme-events/gatsby-node.js:33-41 | With the base path `"/"`, a slug without `/` becomes exactly `"/" + slug`. |
| Slug.PathUnderNamedBase | gatsby-theme-events/gatsby-node.js:41 | A non-empty base path without `/` and a slug without `/` give exactly `"/" + base + "/" + slug`, with nothing collapsed. |
| Slug.SlugText | gatsby-theme-events/gatsby-node.js:36-39 | Steps 1-3 give lower-case letters and digits separated by single hyphens, with no hyphen at either end. The letters and digits are exactly those of the lower-cased name, in order. |
| Slug.SlugTextMatchesWords | gatsby-theme-events/gatsby-node.js:36-39 | For every name, steps 1-3 are the lower-cased name's words (maximal runs of `[a-z0-9]`) joined by single hyphens. This fixes where every hyphen goes. |
| Slug.SlugTextJoin | gatsby-theme-events/gatsby-node.js:36-39 | A character that is a separator after lower-casing splits a name into two parts. The slug text of the whole is the two parts' slug texts joined by one `-`. When either part has no letter or digit, it is the other part's slug text alone. |
| Slug.Slugify | gatsby-theme-events/gatsby-node.js:35-42 | The result is `/` followed by a normal slug: only `[a-z0-9-]`, no `--`, and no `-` at either end. That slug holds exactly the letters and digits of the lower-cased name, in order. |
| Slug.SlugifyRooted | gatsby-theme-events/gatsby-node.js:33-42 | Under the base path `"/"`, the result is `"/"` followed by the output of steps 1-3, with nothing else collapsed. |
| Slug.SlugifyMatchesWords | gatsby-theme-events/gatsby-node.js:35-42 | For every name, the result is `/` followed by the lower-cased name's words joined by single hyphens. |
| Slug.SlugifyAlphabet | gatsby-theme-events/gatsby-node.js:33-41 | Every character of the path is in `[a-z0-9/-]`, and the first character is the only `/`. |
| Slug.SlugifyBareIff | gatsby-theme-events/gatsby-node.js:38-41 | The path is exactly `"/"` if and only if the lower-cased name has no letter or digit. This covers the empty name. |
| Slug.SlugifyNoWords | gatsby-theme-events/gatsby-node.js:37-41 | A name none of whose characters lower-cases to a letter or digit resolves to `"/"`. |
| Slug.SlugifyOfSlug | gatsby-theme-events/gatsby-node.js:35-42 | A name that is already a normal slug comes out as `"/" + name`. |
| Slug.SlugTextRooted | gatsby-theme-events/gatsby-node.js:36-39 | Steps 1-3 applied to `"/" + t`, for a normal slug `t`, give back `t`. The `/` becomes a separator, and the resulting hyphen is trimmed. |
| Slug.SlugifyIdempotent | gatsby-theme-events/gatsby-node.js:35-42 | `slugify(slugify(name)) == slugify(name)` for every name. |
| Slug.JoinedWordPair | gatsby-theme-events/gatsby-node.js:38-39 | Two non-empty words around one separator read as the two words joined by `-`. |
| Slug.SlugifyTwoWords | gatsby-theme-events/gatsby-node.js:35-42 | `slugify("A B")` is `"/a-b"`. |
| Slug.SlugifyPunctuation | gatsby-theme-events/gatsby-node.js:35-42 | `slugify("!!!")` is `"/"`. |
| Events.ResolveSlug | gatsby-theme-events/gatsby-node.js:47 | Every event gets a slug, with no failure case. The slug is a root-level path with a single `/`, the normal slug form, and the lower-cased name's letters and digits in order. |
| Events.ResolveSlugWords | gatsby-theme-events/gatsby-node.js:47 | An event's slug is `/` followed by its name's lower-cased words joined by single hyphens. |

## Left out

- `onPreBootstrap` (lines 6-13) is left out. It checks for a `data` directory, creates it and logs a message, which is file-system I/O and framework logging.
- `sourceNodes` (lines 17-29) is left out. It hands a GraphQL schema string to the framework. The `Event` datatype keeps its fields, but date parsing through `@dateformat`/`@proxy` happens inside the framework, so `startDate` and `endDate` stay raw text.
- The `createResolvers({...})` registration call (lines 44-50) is left out because it is framework wiring. Only the resolver function it registers is modelled.
- Page and route creation is left out: the source has only the comment on line 53 and no code.
- Slug.Lower, Slug.LowerChar: only ASCII `A`-`Z` are lower-cased. JavaScript's `toLowerCase` follows Unicode, and a few non-ASCII characters (U+0130, U+212A) lower-case to ASCII letters, which would then survive step 2. All other properties hold whatever `Lower` does, because step 2 turns every character outside `[a-z0-9]` into a separator. Only the name-dependent "letters and digits of the lower-cased name" clauses depend on this choice.
- Longer worked examples, such as `"Annual Tech Conference"` giving `"/annual-tech-conference"` and `"  Multi   Space  "` giving `"/multi-space"`, are not stated one by one. `SlugifyMatchesWords` and `SlugTextJoin` cover them for every name, and the two short examples show the reading on concrete input.
