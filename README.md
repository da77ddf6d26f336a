# Authors, magazines and articles

A Dafny model of `lib/classes/many_to_many.py`. That file keeps a many-to-many
relationship between authors and magazines in memory. The join entity is the
article.

- `Article(author, magazine, title)` checks that the title is 5 to 50
  characters long. It then links itself into three lists: the class-wide
  `Article.all`, the author's articles and the magazine's articles. Creating
  an article is the only way a relationship comes into being.
- `Author` has a non-empty name that never changes, and an append-only list of
  articles. From that list it derives its magazines, its topic areas and its
  "contributing authors".
- `Magazine` has a name (2 to 16 characters) and a category (non-empty). Both
  are checked on every assignment. A magazine registers itself in the
  class-wide `Magazine.all` and derives its contributors, its article titles
  and its contributing authors. `Magazine.top_publisher` picks, from the
  registry, the magazine with the most articles.

Files:

- `wrappers.dfy`, module `Wrappers`:
  - `Option` stands for the `None` that some queries return instead of a list.
  - `Result` and `Outcome` stand for a constructor or setter that raises
    `ValueError`.
- `many_to_many.dfy`, module `ManyToMany`, holds the rest.

How the Python maps onto Dafny:

- Objects become classes. `Article.title` (lines 14-16) and `Author.name`
  (lines 29-31) are read-only properties, so they are `const`.
  `Article.author` and `Article.magazine` (lines 7-8) are plain attributes
  that nothing in the file reassigns; the model makes them `const` too.
- The lists the source appends to are `seq` fields. Each append is a
  reassignment.
- The two class-level lists become the registry objects `ArticleRegistry`
  and `MagazineRegistry`. Each has an `all` field, and the caller passes the
  registry in.
- Each validation rule is a subset type: `Title`, `AuthorName`,
  `MagazineName`, `Category`. A stored value therefore always satisfies its
  rule.
- Each Dafny constructor is the part of `__init__` that runs after validation.
  The static `Create` methods are the whole `__init__`. They return `Failure`
  exactly where the source raises, and they change nothing in that case.
- The property getters (`Article.title`, `Author.name`, `Magazine.name`,
  `Magazine.category`) and the `articles()` methods are reads of the fields
  of the same name.
- `magazines`, `contributors` and `topic_areas` build a Python `set` and
  return it as a list. The model returns a `set`.
- Both `contributing_authors` methods run the same loop. It fills the
  dictionary `author_counts` and then keeps the keys counted more than twice.
  Here that loop is the one method `TallyProlific`. It keeps the dictionary's
  insertion order, so authors come out in the order of their first article.
  `TallyProlific` is proved equal to the function `Prolific`.
- `top_publisher` is Python's `max` with a key. It keeps its first candidate
  unless a later one is strictly larger, so ties go to the earliest magazine
  in the registry. `FirstMaxIndex` is that left-to-right scan.

Two details of `contributing_authors`:

- Both versions return a list in dictionary order: authors come in the order
  of their first article (`FirstSeenOrder`).
- `Author.contributing_authors` has no guard on the total article count
  (line 54, unlike line 109). Every article in an author's list names that
  author, so it returns `[self]` past two articles and `[]` otherwise
  (`SoleAuthorProlific`).

## Model

| member | source | states |
|---|---|---|
| `ManyToMany.ArticleRegistry.constructor` | lib/classes/many_to_many.py:2 | `Article.all` starts empty |
| `ManyToMany.ArticleRegistry.ContributorIffMagazine` | lib/classes/many_to_many.py:10-12 | for a linked registry and an author and a magazine whose articles name them and are all registered, the author is among the magazine's contributors if and only if the magazine is among the author's magazines |
| `ManyToMany.ArticleRegistry.BothEnds` | lib/classes/many_to_many.py:10-12 | if the registry is linked, a registered article's magazine is one of its author's magazines, its author is one of the magazine's contributors, and its magazine's category is one of the author's topic areas |
| `ManyToMany.MagazineRegistry.constructor` | lib/classes/many_to_many.py:61 | `Magazine.all` starts empty |
| `ManyToMany.MagazineRegistry.TopPublisher` | lib/classes/many_to_many.py:111-115 | `None` exactly when no magazine is registered; otherwise a registered magazine whose article count is at least every other one's and strictly above the count of every magazine registered before it |
| `ManyToMany.FirstMaxIndex` | lib/classes/many_to_many.py:115 | the left-to-right `max` returns an index in range, whose count is maximal and strictly exceeds the count at every earlier index; the proof uses the recursive call's contract |
| `ManyToMany.Article.constructor` | lib/classes/many_to_many.py:7-12 | stores author, magazine and title, and appends exactly the new article to the end of `Article.all`, the author's list and the magazine's list |
| `ManyToMany.Article.Create` | lib/classes/many_to_many.py:4-12 | fails with `TitleLength` exactly when the title is not 5..50 characters long, and then leaves all three lists unchanged; on success each list grows by exactly the new article; it keeps the author's and the magazine's referential invariant, the registry's linkage, and the fact that all of the author's and the magazine's articles are registered |
| `ManyToMany.Author.constructor` | lib/classes/many_to_many.py:23-27 | stores the name and starts with no articles |
| `ManyToMany.Author.Create` | lib/classes/many_to_many.py:23-27 | fails with `AuthorNameEmpty` exactly when the name is empty; otherwise a fresh author with that name and no articles |
| `ManyToMany.Author.AddArticle` | lib/classes/many_to_many.py:36-38 | behaves as `Article(self, magazine, title)`; on success the author's magazines become the old ones plus `magazine` |
| `ManyToMany.Author.Magazines` | lib/classes/many_to_many.py:40-41 | every returned magazine is the magazine of one of the author's articles, and every article's magazine is returned; the result is empty exactly when there are no articles |
| `ManyToMany.Author.TopicAreas` | lib/classes/many_to_many.py:43-45 | `None` exactly when the author has no articles; otherwise a category is returned if and only if it is the current category of one of the articles' magazines |
| `ManyToMany.Author.TopicAreasOfMagazines` | lib/classes/many_to_many.py:40-45 | for an author with articles, the topic areas are exactly the categories of `Magazines()` |
| `ManyToMany.Author.ContributingAuthors` | lib/classes/many_to_many.py:47-54 | returns exactly the authors named on more than two of the author's articles, in first-appearance order; for a valid author this is `[self]` past two articles and `[]` otherwise |
| `ManyToMany.Magazine.constructor` | lib/classes/many_to_many.py:63-67 | stores name and category, starts with no articles, and appends the magazine to `Magazine.all` |
| `ManyToMany.Magazine.Create` | lib/classes/many_to_many.py:63-91 | fails exactly when the name is not 2..16 characters long or the category is empty; the name error wins when both fail; nothing is registered on failure; on success it registers exactly the new magazine |
| `ManyToMany.Magazine.SetName` | lib/classes/many_to_many.py:73-79 | accepts the value if and only if it is 2..16 characters long; on rejection it returns `MagazineNameLength` and the name keeps its old value |
| `ManyToMany.Magazine.SetCategory` | lib/classes/many_to_many.py:85-91 | accepts the value if and only if it is non-empty; on rejection it returns `CategoryEmpty` and the category keeps its old value |
| `ManyToMany.Magazine.Contributors` | lib/classes/many_to_many.py:96-97 | every returned author wrote one of the magazine's articles, and every article's author is returned; the result is empty exactly when there are no articles |
| `ManyToMany.Magazine.ArticleTitles` | lib/classes/many_to_many.py:99-100 | `None` exactly when the magazine has no articles; otherwise one title per article, in insertion order |
| `ManyToMany.Magazine.ContributingAuthors` | lib/classes/many_to_many.py:102-109 | `None` exactly when the magazine has at most two articles, whatever the per-author counts; otherwise exactly the contributors named on more than two of its articles, in first-appearance order |
| `ManyToMany.Count` | lib/classes/many_to_many.py:103-108 | the final `author_counts[x]` never exceeds the number of articles |
| `ManyToMany.CountPositive` | lib/classes/many_to_many.py:103-108 | an author has a positive count if and only if one of the articles names them |
| `ManyToMany.FirstSeen` | lib/classes/many_to_many.py:103-108 | the dictionary's keys in insertion order: no author appears twice, every key has a positive count, and every article's author is a key |
| `ManyToMany.FirstSeenOrder` | lib/classes/many_to_many.py:103-108 | the keys come in first-appearance order: every article naming a later key is preceded by an article naming each earlier key |
| `ManyToMany.EarlierArticle` | lib/classes/many_to_many.py:103-108 | every key of the dictionary built from a prefix is the author of some article in that prefix |
| `ManyToMany.Frequent` | lib/classes/many_to_many.py:109 | keeps a key if and only if it is counted more than twice, and keeps distinct keys distinct |
| `ManyToMany.Prolific` | lib/classes/many_to_many.py:102-109 | the result has no duplicates, and every author in it is counted more than twice; every article author counted more than twice is in it |
| `ManyToMany.ProlificMembers` | lib/classes/many_to_many.py:109 | an author is in the result if and only if they are counted more than twice |
| `ManyToMany.CountByAuthor` | lib/classes/many_to_many.py:103-108 | the dictionary loop ends with the first-appearance key list and a count per key equal to `Count` |
| `ManyToMany.TallyProlific` | lib/classes/many_to_many.py:102-109 | the count-then-filter loops compute exactly `Prolific` of the article list |
| `ManyToMany.SoleAuthorProlific` | lib/classes/many_to_many.py:47-54 | when every article names one author, the result is that author past two articles and empty otherwise |
| `ManyToMany.SoleAuthorFirstSeen` | lib/classes/many_to_many.py:48-53 | when every article names one author, that author is the only key |
| `ManyToMany.SoleAuthorCount` | lib/classes/many_to_many.py:48-53 | when every article names one author, that author's count is the number of articles |
| `ManyToMany.ThreeAuthorsNoneProlific` | lib/classes/many_to_many.py:102-109 | three articles by three different authors give an empty list, not `None` |
| `ManyToMany.NoneFrequent` | lib/classes/many_to_many.py:109 | when no key is counted more than twice, the filter keeps nothing |

## Left out

- `__repr__` of all three classes (lines 18-19, 56-57, 117-118): string formatting for display only.
- The `isinstance(..., str)` checks (lines 24, 75, 87): Dafny's `string` type makes them vacuous. Only the length and emptiness rules are modelled.
- The `ValueError` messages: the model keeps one `ValidationError` case per raising check, not the text.
- The element order of `list(set(...))` in `magazines`, `contributors` and `topic_areas`: Python's set order is unspecified, so these return a `set`.
- Aliasing through the list returned by `articles()`: the model reads the current sequence, so a caller cannot append to it behind the owner's back.
- `Article.all` and `Magazine.all` as true process-wide globals: they are registry objects that the caller creates and passes in. They keep the same append-only behaviour.
- Rebinding `Article.author` or `Article.magazine` (lines 7-8): the model makes them immutable. In the source a caller may rebind them, which breaks referential consistency (`Author.Valid`, `Magazine.Valid`, `ArticleRegistry.Linked`) and changes what `contributing_authors` returns.
- The half-assigned `_name` of a `Magazine` whose category check fails: the source discards that object, so the model never creates it.
