/** The author / magazine / article relationship of `lib/classes/many_to_many.py`.

    An `Article` joins one `Author` to one `Magazine`.  Creating it is the only
    way relationships come into being: it appends itself to the process-wide
    article registry, to its author's articles and to its magazine's articles.
    A `Magazine` registers itself in the process-wide magazine registry.  The
    two class-level lists `Article.all` and `Magazine.all` are modelled as the
    registry objects `ArticleRegistry` and `MagazineRegistry`, passed in by
    the caller.  Every other operation is a query over these sequences. */
module ManyToMany {
  import opened Wrappers

  /** The conditions under which the source raises `ValueError`. */
  datatype ValidationError =
    | TitleLength         // article title not 5..50 characters long
    | AuthorNameEmpty     // author name empty
    | MagazineNameLength  // magazine name not 2..16 characters long
    | CategoryEmpty       // magazine category empty

  predicate IsTitle(t: string) { 5 <= |t| <= 50 }
  predicate IsAuthorName(s: string) { |s| > 0 }
  predicate IsMagazineName(s: string) { 2 <= |s| <= 16 }
  predicate IsCategory(s: string) { |s| > 0 }

  /** The validated text types: a stored value always satisfies its rule. */
  type Title = t: string | IsTitle(t) witness "title"
  type AuthorName = s: string | IsAuthorName(s) witness "a"
  type MagazineName = s: string | IsMagazineName(s) witness "mm"
  type Category = s: string | IsCategory(s) witness "c"

  /** `Article.all`: every article ever created, in creation order. */
  class ArticleRegistry {
    var all: seq<Article>

    constructor ()
      ensures all == []
    {
      all := [];
    }

    /** Every registered article is linked into its author's and its
        magazine's article lists. */
    ghost predicate Linked()
      reads this, set a | a in all :: a.author, set a | a in all :: a.magazine
    {
      forall a :: a in all ==> a in a.author.articles && a in a.magazine.articles
    }

    /** Every article of `arts` is registered. */
    ghost predicate Holds(arts: seq<Article>)
      reads this
    {
      forall a :: a in arts ==> a in all
    }

    /** The relationship reads the same from both ends: for a consistent
        author and magazine whose articles are all registered, the author is
        a contributor of the magazine exactly when the magazine is one of the
        author's magazines. */
    lemma ContributorIffMagazine(x: Author, m: Magazine)
      requires Linked() && x.Valid() && m.Valid() && Holds(x.articles) && Holds(m.articles)
      ensures x in m.Contributors() <==> m in x.Magazines()
    {
      if x in m.Contributors() {
        var a :| a in m.articles && a.author == x;
        assert a in all;
        assert a in x.articles;
      }
      if m in x.Magazines() {
        var a :| a in x.articles && a.magazine == m;
        assert a in all;
        assert a in m.articles;
      }
    }

    /** Both ends see a registered article: its magazine is among its
        author's magazines and its author among its magazine's contributors. */
    lemma BothEnds(a: Article)
      requires Linked() && a in all
      ensures a.magazine in a.author.Magazines() && a.author in a.magazine.Contributors()
      ensures a.magazine.category in a.author.TopicAreas().value
    {
    }
  }

  /** `Magazine.all`: every magazine ever created, in creation order. */
  class MagazineRegistry {
    var all: seq<Magazine>

    constructor ()
      ensures all == []
    {
      all := [];
    }

    /** `Magazine.top_publisher`: `None` when no magazine exists, otherwise
        the first registered magazine with the most articles. */
    function TopPublisher(): (r: Option<Magazine>)
      reads this, all
      ensures r.None? <==> all == []
      ensures r.Some? ==>
        exists k :: 0 <= k < |all| && all[k] == r.value
          && (forall j :: 0 <= j < |all| ==> |all[j].articles| <= |all[k].articles|)
          && (forall j :: 0 <= j < k ==> |all[j].articles| < |all[k].articles|)
    {
      if all == [] then None
      else
        var k := FirstMaxIndex(all);
        Some(all[k])
    }
  }

  /** The index Python's `max(ms, key=lambda m: len(m.articles()))` picks: it
      scans from the left and only replaces its candidate on a strictly larger
      count, so the result is the first index of a maximal count. */
  function FirstMaxIndex(ms: seq<Magazine>): (k: nat)
    requires ms != []
    reads ms
    ensures k < |ms|
    ensures forall j :: 0 <= j < |ms| ==> |ms[j].articles| <= |ms[k].articles|
    ensures forall j :: 0 <= j < k ==> |ms[j].articles| < |ms[k].articles|
  {
    if |ms| == 1 then 0
    else
      var k := FirstMaxIndex(ms[..|ms| - 1]);
      if |ms[|ms| - 1].articles| > |ms[k].articles| then |ms| - 1 else k
  }

  class Article {
    const author: Author
    const magazine: Magazine
    const title: Title

    /** The body of `Article.__init__` once the title has been validated:
        store the three fields, then append to the three lists. */
    constructor (author: Author, magazine: Magazine, title: Title, registry: ArticleRegistry)
      modifies registry`all, author`articles, magazine`articles
      ensures this.author == author && this.magazine == magazine && this.title == title
      ensures registry.all == old(registry.all) + [this]
      ensures author.articles == old(author.articles) + [this]
      ensures magazine.articles == old(magazine.articles) + [this]
    {
      this.author := author;
      this.magazine := magazine;
      this.title := title;
      new;
      registry.all := registry.all + [this];
      author.articles := author.articles + [this];
      magazine.articles := magazine.articles + [this];
    }

    /** `Article(author, magazine, title)`: raises before any side effect when
        the title is not 5..50 characters long. */
    static method Create(author: Author, magazine: Magazine, title: string, registry: ArticleRegistry)
      returns (r: Result<Article, ValidationError>)
      modifies registry`all, author`articles, magazine`articles
      ensures r.Failure? <==> !IsTitle(title)
      ensures r.Failure? ==> r.error == TitleLength
      ensures r.Failure? ==>
        && registry.all == old(registry.all)
        && author.articles == old(author.articles)
        && magazine.articles == old(magazine.articles)
      ensures r.Success? ==>
        && fresh(r.value)
        && r.value.author == author && r.value.magazine == magazine && r.value.title == title
        && registry.all == old(registry.all) + [r.value]
        && author.articles == old(author.articles) + [r.value]
        && magazine.articles == old(magazine.articles) + [r.value]
      ensures old(author.Valid()) ==> author.Valid()
      ensures old(magazine.Valid()) ==> magazine.Valid()
      ensures old(registry.Linked()) ==> registry.Linked()
      ensures old(registry.Holds(author.articles)) ==> registry.Holds(author.articles)
      ensures old(registry.Holds(magazine.articles)) ==> registry.Holds(magazine.articles)
    {
      if !IsTitle(title) {
        return Failure(TitleLength);
      }
      var a := new Article(author, magazine, title, registry);
      r := Success(a);
    }
  }

  class Author {
    const name: AuthorName
    var articles: seq<Article>

    /** Every article in the list names this author. */
    ghost predicate Valid()
      reads this
    {
      forall a :: a in articles ==> a.author == this
    }

    constructor (name: AuthorName)
      ensures this.name == name && articles == [] && Valid()
    {
      this.name := name;
      articles := [];
    }

    /** `Author(name)`: raises when the name is empty. */
    static method Create(name: string) returns (r: Result<Author, ValidationError>)
      ensures r.Failure? <==> !IsAuthorName(name)
      ensures r.Failure? ==> r.error == AuthorNameEmpty
      ensures r.Success? ==> fresh(r.value) && r.value.name == name && r.value.articles == [] && r.value.Valid()
    {
      if !IsAuthorName(name) {
        return Failure(AuthorNameEmpty);
      }
      var a := new Author(name);
      r := Success(a);
    }

    /** `add_article`: creates `Article(self, magazine, title)`. */
    method AddArticle(magazine: Magazine, title: string, registry: ArticleRegistry)
      returns (r: Result<Article, ValidationError>)
      modifies registry`all, this`articles, magazine`articles
      ensures r.Failure? <==> !IsTitle(title)
      ensures r.Failure? ==> r.error == TitleLength
      ensures r.Failure? ==>
        && registry.all == old(registry.all)
        && articles == old(articles)
        && magazine.articles == old(magazine.articles)
      ensures r.Success? ==>
        && fresh(r.value)
        && r.value.author == this && r.value.magazine == magazine && r.value.title == title
        && registry.all == old(registry.all) + [r.value]
        && articles == old(articles) + [r.value]
        && magazine.articles == old(magazine.articles) + [r.value]
        && Magazines() == old(Magazines()) + {magazine}
      ensures old(Valid()) ==> Valid()
      ensures old(magazine.Valid()) ==> magazine.Valid()
      ensures old(registry.Linked()) ==> registry.Linked()
    {
      r := Article.Create(this, magazine, title, registry);
      if r.Success? {
        assert forall m :: m in Magazines() <==> m in old(Magazines()) || m == magazine by {
          forall m ensures m in Magazines() <==> m in old(Magazines()) || m == magazine {
            if m == magazine {
              assert r.value in articles;
            }
          }
        }
      }
    }

    /** `magazines`: the distinct magazines of this author's articles. */
    function Magazines(): (r: set<Magazine>)
      reads this
      ensures forall m :: m in r ==> exists a :: a in articles && a.magazine == m
      ensures forall a :: a in articles ==> a.magazine in r
      ensures r == {} <==> articles == []
    {
      assert articles != [] ==> articles[0].magazine in set a | a in articles :: a.magazine;
      set a | a in articles :: a.magazine
    }

    /** `topic_areas`: `None` when the author has no articles, otherwise the
        distinct current categories of the magazines of its articles. */
    function TopicAreas(): (r: Option<set<string>>)
      reads this, set a | a in articles :: a.magazine
      ensures r.None? <==> articles == []
      ensures r.Some? ==> forall c :: c in r.value <==> exists a :: a in articles && a.magazine.category == c
    {
      if articles == [] then None
      else Some(set a | a in articles :: a.magazine.category)
    }

    /** The topic areas are exactly the categories of `Magazines()`. */
    lemma TopicAreasOfMagazines()
      requires articles != []
      ensures TopicAreas() == Some(set m | m in Magazines() :: m.category)
    {
      var cats := set m | m in Magazines() :: m.category;
      forall c ensures c in TopicAreas().value <==> c in cats {
        if c in cats {
          var m :| m in Magazines() && m.category == c;
          var a :| a in articles && a.magazine == m;
        }
        if c in TopicAreas().value {
          var a :| a in articles && a.magazine.category == c;
          assert a.magazine in Magazines();
        }
      }
      assert TopicAreas().value == cats;
    }

    /** `contributing_authors`: the authors, in order of first appearance,
        named on more than two of this author's articles. */
    method ContributingAuthors() returns (r: seq<Author>)
      ensures r == Prolific(articles)
      ensures forall x :: x in r <==> Count(articles, x) > 2
      ensures Valid() ==> r == if |articles| > 2 then [this] else []
    {
      r := TallyProlific(articles);
      forall x ensures x in r <==> Count(articles, x) > 2 {
        ProlificMembers(articles, x);
      }
      if Valid() {
        SoleAuthorProlific(articles, this);
      }
    }
  }

  class Magazine {
    var name: MagazineName
    var category: Category
    var articles: seq<Article>

    /** Every article in the list names this magazine. */
    ghost predicate Valid()
      reads this
    {
      forall a :: a in articles ==> a.magazine == this
    }

    /** The body of `Magazine.__init__` once name and category have passed
        their setters: start with no articles and register. */
    constructor (name: MagazineName, category: Category, registry: MagazineRegistry)
      modifies registry`all
      ensures this.name == name && this.category == category && articles == [] && Valid()
      ensures registry.all == old(registry.all) + [this]
    {
      this.name := name;
      this.category := category;
      articles := [];
      new;
      registry.all := registry.all + [this];
    }

    /** `Magazine(name, category)`: the name is checked first, then the
        category; on either failure nothing is registered. */
    static method Create(name: string, category: string, registry: MagazineRegistry)
      returns (r: Result<Magazine, ValidationError>)
      modifies registry`all
      ensures r.Failure? <==> !IsMagazineName(name) || !IsCategory(category)
      ensures r.Failure? ==> r.error == if !IsMagazineName(name) then MagazineNameLength else CategoryEmpty
      ensures r.Failure? ==> registry.all == old(registry.all)
      ensures r.Success? ==>
        && fresh(r.value)
        && r.value.name == name && r.value.category == category && r.value.articles == []
        && r.value.Valid()
        && registry.all == old(registry.all) + [r.value]
    {
      if !IsMagazineName(name) {
        return Failure(MagazineNameLength);
      }
      if !IsCategory(category) {
        return Failure(CategoryEmpty);
      }
      var m := new Magazine(name, category, registry);
      r := Success(m);
    }

    /** The `name` setter: assigns only a 2..16 character value. */
    method SetName(value: string) returns (o: Outcome<ValidationError>)
      modifies this`name
      ensures o.Pass? <==> IsMagazineName(value)
      ensures o.Fail? ==> o.error == MagazineNameLength
      ensures name == if o.Pass? then value else old(name)
    {
      if !IsMagazineName(value) {
        return Fail(MagazineNameLength);
      }
      name := value;
      o := Pass;
    }

    /** The `category` setter: assigns only a non-empty value. */
    method SetCategory(value: string) returns (o: Outcome<ValidationError>)
      modifies this`category
      ensures o.Pass? <==> IsCategory(value)
      ensures o.Fail? ==> o.error == CategoryEmpty
      ensures category == if o.Pass? then value else old(category)
    {
      if !IsCategory(value) {
        return Fail(CategoryEmpty);
      }
      category := value;
      o := Pass;
    }

    /** `contributors`: the distinct authors of this magazine's articles. */
    function Contributors(): (r: set<Author>)
      reads this
      ensures forall x :: x in r ==> exists a :: a in articles && a.author == x
      ensures forall a :: a in articles ==> a.author in r
      ensures r == {} <==> articles == []
    {
      assert articles != [] ==> articles[0].author in set a | a in articles :: a.author;
      set a | a in articles :: a.author
    }

    /** `article_titles`: `None` when there are no articles, otherwise one
        title per article, in insertion order. */
    function ArticleTitles(): (r: Option<seq<Title>>)
      reads this
      ensures r.None? <==> articles == []
      ensures r.Some? ==> |r.value| == |articles| && forall i :: 0 <= i < |articles| ==> r.value[i] == articles[i].title
    {
      if articles == [] then None
      else
        var arts := articles;
        var titles: seq<Title> := seq(|arts|, i requires 0 <= i < |arts| => arts[i].title);
        Some(titles)
    }

    /** `contributing_authors`: `None` unless the magazine has more than two
        articles in total; otherwise the authors, in order of first
        appearance, named on more than two of its articles. */
    method ContributingAuthors() returns (r: Option<seq<Author>>)
      ensures r.None? <==> |articles| <= 2
      ensures r.Some? ==> r.value == Prolific(articles)
      ensures r.Some? ==> forall x :: x in r.value <==> x in Contributors() && Count(articles, x) > 2
    {
      var prolific := TallyProlific(articles);
      if |articles| > 2 {
        forall x | x in prolific ensures x in Contributors() {
          CountPositive(articles, x);
        }
        r := Some(prolific);
      } else {
        r := None;
      }
    }
  }

  // ---------------------------------------------------------------------
  // The `author_counts` dictionary of both `contributing_authors` methods.
  // ---------------------------------------------------------------------

  /** No element occurs twice. */
  predicate Distinct<T(==)>(s: seq<T>) {
    forall i, j :: 0 <= i < j < |s| ==> s[i] != s[j]
  }

  /** The number of articles in `arts` written by `x`: the value
      `author_counts[x]` ends with. */
  function Count(arts: seq<Article>, x: Author): (n: nat)
    ensures n <= |arts|
  {
    if arts == [] then 0
    else Count(arts[..|arts| - 1], x) + (if arts[|arts| - 1].author == x then 1 else 0)
  }

  /** An author is counted iff one of the articles names them. */
  lemma {:induction false} CountPositive(arts: seq<Article>, x: Author)
    ensures Count(arts, x) > 0 <==> exists a :: a in arts && a.author == x
  {
    if arts != [] {
      var init := arts[..|arts| - 1];
      CountPositive(init, x);
      assert forall a :: a in arts <==> a in init || a == arts[|arts| - 1];
    }
  }

  /** The keys of `author_counts` in insertion order: each author once, in the
      order of their first article. */
  function FirstSeen(arts: seq<Article>): (keys: seq<Author>)
    ensures Distinct(keys)
    ensures forall x :: x in keys ==> Count(arts, x) > 0
    ensures forall a :: a in arts ==> a.author in keys
  {
    if arts == [] then []
    else
      var keys := FirstSeen(arts[..|arts| - 1]);
      var x := arts[|arts| - 1].author;
      if x in keys then keys else keys + [x]
  }

  /** The keys come in the order of their first article: for every article
      naming a later key there is an earlier article naming an earlier key. */
  lemma {:induction false} FirstSeenOrder(arts: seq<Article>, i: nat, j: nat, q: nat)
    requires i < j < |FirstSeen(arts)|
    requires q < |arts| && arts[q].author == FirstSeen(arts)[j]
    ensures NamedBefore(arts, q, FirstSeen(arts)[i])
  {
    var n := |arts|;
    var init := arts[..n - 1];
    var keys := FirstSeen(init);
    var x := arts[n - 1].author;
    assert FirstSeen(arts) == if x in keys then keys else keys + [x];
    assert FirstSeen(arts)[i] == keys[i];
    if j < |keys| && q < n - 1 {
      assert init[q] == arts[q];
      FirstSeenOrder(init, i, j, q);
      var p :| 0 <= p < q && init[p].author == keys[i];
      assert arts[p] == init[p];
    } else {
      if j == |keys| {
        forall r | 0 <= r < n - 1 ensures arts[r].author in keys {
          assert init[r] == arts[r] && init[r] in init;
        }
      }
      assert q == n - 1;
      EarlierArticle(arts, n - 1, keys[i]);
    }
  }

  /** Some article before position `q` names `x`. */
  predicate NamedBefore(arts: seq<Article>, q: nat, x: Author)
    requires q <= |arts|
  {
    exists p :: 0 <= p < q && arts[p].author == x
  }

  /** A key of a prefix is named by some article of that prefix. */
  lemma EarlierArticle(arts: seq<Article>, n: nat, x: Author)
    requires n <= |arts| && x in FirstSeen(arts[..n])
    ensures NamedBefore(arts, n, x)
  {
    var init := arts[..n];
    CountPositive(init, x);
    var a :| a in init && a.author == x;
    var p :| 0 <= p < n && init[p] == a;
    assert arts[p] == init[p];
  }

  /** The list comprehension over `author_counts.items()`: the keys whose
      count exceeds two, order kept. */
  function Frequent(keys: seq<Author>, arts: seq<Article>): (r: seq<Author>)
    ensures forall x :: x in r ==> x in keys && Count(arts, x) > 2
    ensures forall x :: x in keys && Count(arts, x) > 2 ==> x in r
    ensures Distinct(keys) ==> Distinct(r)
  {
    if keys == [] then []
    else
      var init := Frequent(keys[..|keys| - 1], arts);
      var x := keys[|keys| - 1];
      assert x !in keys[..|keys| - 1] ==> x !in init;
      if Count(arts, x) > 2 then init + [x] else init
  }

  /** What `contributing_authors` computes from an article list. */
  function Prolific(arts: seq<Article>): (r: seq<Author>)
    ensures Distinct(r)
    ensures forall x :: x in r ==> Count(arts, x) > 2
    ensures forall a :: a in arts && Count(arts, a.author) > 2 ==> a.author in r
  {
    Frequent(FirstSeen(arts), arts)
  }

  /** Exactly the authors counted more than twice are prolific. */
  lemma ProlificMembers(arts: seq<Article>, x: Author)
    ensures x in Prolific(arts) <==> Count(arts, x) > 2
  {
    if Count(arts, x) > 2 {
      CountPositive(arts, x);
    }
  }

  /** The first loop of `contributing_authors`: `author_counts` built one
      article at a time, its keys listed in insertion order. */
  method CountByAuthor(arts: seq<Article>) returns (keys: seq<Author>, counts: map<Author, nat>)
    ensures keys == FirstSeen(arts)
    ensures forall x :: x in counts <==> x in keys
    ensures forall x :: x in counts ==> counts[x] == Count(arts, x)
  {
    keys, counts := [], map[];
    var i := 0;
    while i < |arts|
      invariant 0 <= i <= |arts|
      invariant keys == FirstSeen(arts[..i])
      invariant forall x :: x in counts <==> x in keys
      invariant forall x :: x in counts ==> counts[x] == Count(arts[..i], x)
    {
      var x := arts[i].author;
      assert arts[..i + 1][..i] == arts[..i];
      assert Count(arts[..i + 1], x) == Count(arts[..i], x) + 1;
      if x in counts {
        counts := counts[x := counts[x] + 1];
      } else {
        CountPositive(arts[..i], x);
        counts := counts[x := 1];
        keys := keys + [x];
      }
      i := i + 1;
    }
    assert arts[..i] == arts;
  }

  /** The loop of `contributing_authors`: count articles per author in a
      dictionary, then keep the authors counted more than twice. */
  method TallyProlific(arts: seq<Article>) returns (r: seq<Author>)
    ensures r == Prolific(arts)
  {
    var keys, counts := CountByAuthor(arts);
    r := [];
    var j := 0;
    while j < |keys|
      invariant 0 <= j <= |keys|
      invariant r == Frequent(keys[..j], arts)
    {
      assert keys[..j + 1][..j] == keys[..j];
      if counts[keys[j]] > 2 {
        r := r + [keys[j]];
      }
      j := j + 1;
    }
    assert keys[..j] == keys;
  }

  /** When every article names the same author, as in an author's own list,
      that author is the only candidate: `Author.contributing_authors` is
      `[self]` past two articles and `[]` otherwise. */
  lemma {:induction false} SoleAuthorProlific(arts: seq<Article>, x: Author)
    requires forall a :: a in arts ==> a.author == x
    ensures Prolific(arts) == if |arts| > 2 then [x] else []
  {
    SoleAuthorCount(arts, x);
    SoleAuthorFirstSeen(arts, x);
    if arts != [] {
      assert [x][..0] == [];
      assert Frequent([x], arts) == if Count(arts, x) > 2 then [x] else [];
    }
  }

  /** Every article names `x`, so `x` is the one key of `author_counts`. */
  lemma {:induction false} SoleAuthorFirstSeen(arts: seq<Article>, x: Author)
    requires forall a :: a in arts ==> a.author == x
    ensures FirstSeen(arts) == if arts == [] then [] else [x]
  {
    if arts != [] {
      var init := arts[..|arts| - 1];
      assert forall a :: a in init ==> a in arts;
      SoleAuthorFirstSeen(init, x);
      assert arts[|arts| - 1] in arts;
    }
  }

  /** Every article names `x`, so `x` is counted once per article. */
  lemma {:induction false} SoleAuthorCount(arts: seq<Article>, x: Author)
    requires forall a :: a in arts ==> a.author == x
    ensures Count(arts, x) == |arts|
  {
    if arts != [] {
      var init := arts[..|arts| - 1];
      assert forall a :: a in init ==> a in arts;
      SoleAuthorCount(init, x);
      assert arts[|arts| - 1] in arts;
    }
  }

  /** Three articles by three different authors: no author passes the
      threshold, so a magazine holding them gets an empty list, not `None`. */
  lemma ThreeAuthorsNoneProlific(arts: seq<Article>)
    requires |arts| == 3
    requires arts[0].author != arts[1].author && arts[1].author != arts[2].author && arts[0].author != arts[2].author
    ensures Prolific(arts) == []
  {
    assert arts[..2][..1] == arts[..1];
    assert arts[..1][..0] == [];
    assert arts[..|arts| - 1] == arts[..2];
    assert arts[..2][1] == arts[1] && arts[..1][0] == arts[0];
    forall y ensures Count(arts, y) <= 2 {
      assert Count(arts[..1], y) == if arts[0].author == y then 1 else 0;
      assert Count(arts[..2], y) == Count(arts[..1], y) + if arts[1].author == y then 1 else 0;
      assert Count(arts, y) == Count(arts[..2], y) + if arts[2].author == y then 1 else 0;
    }
    NoneFrequent(FirstSeen(arts), arts);
  }

  /** When no key is counted more than twice the filter keeps nothing. */
  lemma {:induction false} NoneFrequent(keys: seq<Author>, arts: seq<Article>)
    requires forall x :: x in keys ==> Count(arts, x) <= 2
    ensures Frequent(keys, arts) == []
  {
    if keys != [] {
      var init := keys[..|keys| - 1];
      assert forall x :: x in init ==> x in keys;
      NoneFrequent(init, arts);
      assert keys[|keys| - 1] in keys;
    }
  }

  /** An example, not a model of any source function: an author publishes
      one article in a magazine, which becomes the top publisher; a
      two-character title is then rejected and changes nothing. */
  method JaneInVogue() {
    var articles := new ArticleRegistry();
    var magazines := new MagazineRegistry();
    var jane := new Author("Jane");
    var vogue := new Magazine("Vogue", "Fashion", magazines);
    var r := jane.AddArticle(vogue, "My Fashion Story", articles);
    assert r.Success?;
    assert |vogue.articles| == 1;
    assert jane.Magazines() == {vogue};
    assert magazines.TopPublisher() == Some(vogue);
    var bad := jane.AddArticle(vogue, "Hi", articles);
    assert bad == Failure(TitleLength);
    assert |vogue.articles| == 1;
  }
}
