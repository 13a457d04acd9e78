/** Knowledge articles and the slugs they are stored under. */
module KnowledgeArticles {
  import opened Options
  import opened Slugs
  import opened Text

  type Id = string

  datatype Article = Article(organization: Id, title: string, slug: string, deleted: bool)

  datatype State = State(articles: map<nat, Article>, next: nat)

  datatype Op =
    | Create(organization: Id, title: string)
    | Update(article: nat, organization: Id, newTitle: Option<string>)
    | Delete(article: nat, organization: Id)
    | BulkDelete(ids: set<nat>, organization: Id)

  /** Deleted articles keep their slugs. */
  function Taken(s: State, organization: Id): set<string> {
    set id | id in s.articles && s.articles[id].organization == organization :: s.articles[id].slug
  }

  predicate Visible(s: State, article: nat, organization: Id) {
    article in s.articles && s.articles[article].organization == organization && !s.articles[article].deleted
  }

  ghost function SlugFor(s: State, low: CaseMap, organization: Id, title: string): string {
    FreeSlug(Slugify(low, title), Taken(s, organization))
  }

  /** The state after a request; a request about an article that is not visible changes nothing. */
  ghost function Step(s: State, low: CaseMap, op: Op): State {
    match op
    case Create(org, title) =>
      var t := Trim(title);
      State(s.articles[s.next := Article(org, t, SlugFor(s, low, org, t), false)], s.next + 1)
    case Update(id, org, title) =>
      var t := if title.Some? then Trim(title.value) else "";
      if !Visible(s, id, org) || t == "" || t == s.articles[id].title then s
      else s.(articles := s.articles[id := s.articles[id].(title := t, slug := SlugFor(s, low, org, t))])
    case Delete(id, org) =>
      if !Visible(s, id, org) then s
      else s.(articles := s.articles[id := s.articles[id].(deleted := true)])
    case BulkDelete(ids, org) =>
      s.(articles := map id | id in s.articles ::
           if id in ids && Visible(s, id, org) then s.articles[id].(deleted := true) else s.articles[id])
  }

  ghost function Run(s: State, low: CaseMap, ops: seq<Op>): State
    decreases |ops|
  {
    if ops == [] then s else Run(Step(s, low, ops[0]), low, ops[1..])
  }

  /** The uniqueness constraint of the table. */
  ghost predicate SlugsAreUnique(s: State) {
    forall i, j | i in s.articles && j in s.articles && i != j ::
      s.articles[i].organization == s.articles[j].organization ==> s.articles[i].slug != s.articles[j].slug
  }

  ghost predicate Inv(s: State) {
    SlugsAreUnique(s) && forall id | id in s.articles :: id < s.next
  }

  lemma NewSlugIsFree(s: State, low: CaseMap, organization: Id, title: string)
    ensures SlugFor(s, low, organization, title) !in Taken(s, organization)
    ensures forall id | id in s.articles && s.articles[id].organization == organization ::
      s.articles[id].slug != SlugFor(s, low, organization, title)
  {
    FirstFreeIsFirst(Slugify(low, title), Taken(s, organization), 1);
    forall id | id in s.articles && s.articles[id].organization == organization
      ensures s.articles[id].slug != SlugFor(s, low, organization, title)
    {
      assert s.articles[id].slug in Taken(s, organization);
    }
  }

  lemma StepKeepsInv(s: State, low: CaseMap, op: Op)
    requires Inv(s)
    ensures Inv(Step(s, low, op))
  {
    match op
    case Create(org, title) => NewSlugIsFree(s, low, org, Trim(title));
    case Update(id, org, title) => if title.Some? { NewSlugIsFree(s, low, org, Trim(title.value)); }
    case Delete(id, org) =>
    case BulkDelete(ids, org) =>
  }

  /** Over every run, no two articles of an organization share a slug, counting the deleted ones. */
  lemma {:induction false} RunKeepsSlugsUnique(s: State, low: CaseMap, ops: seq<Op>)
    requires Inv(s)
    ensures SlugsAreUnique(Run(s, low, ops)) && Inv(Run(s, low, ops))
    decreases |ops|
  {
    if ops != [] {
      StepKeepsInv(s, low, ops[0]);
      RunKeepsSlugsUnique(Step(s, low, ops[0]), low, ops[1..]);
    }
  }

  /**
   A new title always brings a new slug, even one that gives the same base: the
   article's own slug counts as taken. Only an empty title and the stored one keep it.
   */
  lemma RetitlingChangesTheSlug(s: State, low: CaseMap, id: nat, org: Id, title: string)
    requires Visible(s, id, org)
    ensures
      var after := Step(s, low, Update(id, org, Some(title))).articles[id].slug;
      after == s.articles[id].slug <==> Trim(title) == "" || Trim(title) == s.articles[id].title
  {
    NewSlugIsFree(s, low, org, Trim(title));
  }

  /** An article "a" alone in its organization, retitled "A" and back: its slug becomes "a-2", then "a" again. */
  lemma SameBaseNewSlug(low: CaseMap)
    requires Lowercases(low)
    ensures
      var s := State(map[0 := Article("org", "a", "a", false)], 1);
      var t := Step(s, low, Update(0, "org", Some("A")));
      && Slugify(low, "A") == Slugify(low, "a") == "a"
      && t.articles[0].slug == "a-2"
      && Step(t, low, Update(0, "org", Some("a"))) == s
  {
    OneLetterSlug(low);
    NextIsTwo();
    BaseIsFree();
    TakenByOne("a", "a");
    TakenByOne("A", "a-2");
    hide Slugify, FreeSlug, Taken;
    var s := State(map[0 := Article("org", "a", "a", false)], 1);
    var t := State(map[0 := Article("org", "A", "a-2", false)], 1);
    assert Step(s, low, Update(0, "org", Some("A"))) == t;
  }

  lemma TakenByOne(title: string, slug: string)
    ensures Taken(State(map[0 := Article("org", title, slug, false)], 1), "org") == {slug}
  {
    var s := State(map[0 := Article("org", title, slug, false)], 1);
    assert s.articles[0].slug in Taken(s, "org");
  }

  lemma OneLetterSlug(low: CaseMap)
    requires Lowercases(low)
    ensures Slugify(low, "A") == "a" && Slugify(low, "a") == "a" && Trim("A") == "A" && Trim("a") == "a"
  {
    assert low('A') == ['a'] && low('a') == ['a'];
    assert MapCase(low, "") == "" && "A"[1..] == "" && "a"[1..] == "";
    assert MapCase(low, "A") == ['a'] + "" == "a" && MapCase(low, "a") == ['a'] + "" == "a";
    assert Collapse("", false) == "" && Collapse("a", false) == ['a'] + "" == "a";
  }

  lemma NextIsTwo()
    ensures FreeSlug("a", {"a"}) == "a-2"
  {
    FirstFreeIsFirst("a", {"a"}, 1);
    var f := FirstFree("a", {"a"}, 1);
    assert Candidate("a", 1) == "a";
    assert Candidate("a", 2) == "a" + "-" + Numeral(2, 10) == "a-2";
    assert f != 1;
    assert f <= 2;
  }

  lemma BaseIsFree()
    ensures FreeSlug("a", {"a-2"}) == "a"
  {
    FirstFreeIsFirst("a", {"a-2"}, 1);
    assert Candidate("a", 1) == "a";
  }

  class ArticleStore {
    var articles: map<nat, Article>
    var next: nat
    const low: CaseMap

    constructor (low: CaseMap)
      ensures Current() == State(map[], 0) && Inv(Current()) && this.low == low
    {
      this.low := low;
      articles, next := map[], 0;
    }

    ghost function Current(): State
      reads this
    {
      State(articles, next)
    }

    predicate Sees(article: nat, organization: Id)
      reads this
    {
      article in articles && articles[article].organization == organization && !articles[article].deleted
    }

    method UniqueArticleSlug(organization: Id, value: string) returns (slug: string)
      ensures slug == SlugFor(Current(), low, organization, value)
    {
      var taken := set id | id in articles && articles[id].organization == organization :: articles[id].slug;
      slug := UniqueSlug(Slugify(low, value), taken);
    }

    method CreateArticle(organization: Id, title: string) returns (id: nat)
      modifies this
      ensures Current() == Step(old(Current()), low, Create(organization, title)) && id == old(next)
    {
      var slug := UniqueArticleSlug(organization, Trim(title));
      id := next;
      articles := articles[next := Article(organization, Trim(title), slug, false)];
      next := next + 1;
    }

    method UpdateArticle(article: nat, organization: Id, title: Option<string>) returns (found: bool)
      modifies this
      ensures found == Visible(old(Current()), article, organization)
      ensures Current() == Step(old(Current()), low, Update(article, organization, title))
    {
      found := Sees(article, organization);
      if !found { return; }
      var existing := articles[article];
      var nextTitle := if title.Some? then Trim(title.value) else "";
      if nextTitle != "" {
        var slug := existing.slug;
        if nextTitle != existing.title {
          slug := UniqueArticleSlug(organization, nextTitle);
        }
        articles := articles[article := existing.(title := nextTitle, slug := slug)];
      }
    }

    method DeleteArticle(article: nat, organization: Id) returns (found: bool)
      modifies this
      ensures found == Visible(old(Current()), article, organization)
      ensures Current() == Step(old(Current()), low, Delete(article, organization))
    {
      found := Sees(article, organization);
      if found {
        articles := articles[article := articles[article].(deleted := true)];
      }
    }

    method BulkDeleteArticles(ids: set<nat>, organization: Id) returns (deleted: nat)
      modifies this
      ensures deleted == |set id | id in ids && Visible(old(Current()), id, organization)|
      ensures Current() == Step(old(Current()), low, BulkDelete(ids, organization))
    {
      var seen := set id | id in ids && Sees(id, organization);
      assert seen == set id | id in ids && Visible(Current(), id, organization);
      deleted := |seen|;
      articles := map id | id in articles ::
        if id in ids && Sees(id, organization) then articles[id].(deleted := true) else articles[id];
    }
  }
}
