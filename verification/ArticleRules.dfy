/** What each request about knowledge articles does to the stored articles. */
module ArticleRules {
  import opened KnowledgeArticles
  import opened Options
  import opened Slugs
  import opened Text

  /** An article of the organization, deleted or not, has the slug. */
  ghost predicate IsUsed(s: State, org: Id, slug: string) {
    exists i :: i in s.articles && s.articles[i].organization == org && s.articles[i].slug == slug
  }

  /** The first candidate for a title that no article of the organization has. */
  ghost predicate IsSlugFor(s: State, low: CaseMap, org: Id, title: string, slug: string) {
    exists n: nat | 1 <= n ::
      && slug == Candidate(Slugify(low, title), n) && !IsUsed(s, org, slug)
      && forall m | 1 <= m < n :: IsUsed(s, org, Candidate(Slugify(low, title), m))
  }

  predicate IsSeen(s: State, article: nat, org: Id) {
    article in s.articles && s.articles[article].organization == org && !s.articles[article].deleted
  }

  lemma UsedIsTaken(s: State, org: Id, slug: string)
    ensures IsUsed(s, org, slug) <==> slug in Taken(s, org)
  {
  }

  lemma ComputedSlug(s: State, low: CaseMap, org: Id, title: string)
    ensures IsSlugFor(s, low, org, title, SlugFor(s, low, org, title))
  {
    hide Slugify, Candidate, IsUsed, Taken;
    var base := Slugify(low, title);
    FirstFreeIsFirst(base, Taken(s, org), 1);
    var n := FirstFree(base, Taken(s, org), 1);
    UsedIsTaken(s, org, Candidate(base, n));
    forall m | 1 <= m < n ensures IsUsed(s, org, Candidate(base, m)) {
      UsedIsTaken(s, org, Candidate(base, m));
    }
  }

  lemma RulesOfCreate(s: State, low: CaseMap, org: Id, title: string)
    ensures
      var t := Step(s, low, Create(org, title));
      && t.next == s.next + 1
      && exists slug ::
           && IsSlugFor(s, low, org, Trim(title), slug)
           && t.articles == s.articles[s.next := Article(org, Trim(title), slug, false)]
  {
    hide IsSlugFor, Trim, SlugFor;
    ComputedSlug(s, low, org, Trim(title));
  }

  lemma RulesOfUpdate(s: State, low: CaseMap, id: nat, org: Id, title: Option<string>)
    ensures
      var t := Step(s, low, Update(id, org, title));
      if !IsSeen(s, id, org) || title == None || Trim(title.value) == "" || Trim(title.value) == s.articles[id].title
      then t == s
      else
        && t.next == s.next
        && exists slug ::
             && IsSlugFor(s, low, org, Trim(title.value), slug)
             && t.articles == s.articles[id := Article(org, Trim(title.value), slug, false)]
  {
    hide IsSlugFor, Trim, SlugFor;
    if title.Some? { ComputedSlug(s, low, org, Trim(title.value)); }
  }

  lemma RulesOfDelete(s: State, low: CaseMap, id: nat, org: Id, ids: set<nat>)
    ensures Step(s, low, Delete(id, org)) == Step(s, low, BulkDelete({id}, org))
    ensures
      var t := Step(s, low, BulkDelete(ids, org));
      && t.next == s.next && t.articles.Keys == s.articles.Keys
      && forall i | i in s.articles ::
           var was := s.articles[i];
           t.articles[i] ==
             Article(was.organization, was.title, was.slug, was.deleted || (i in ids && was.organization == org))
  {
  }
}
