/** `dominant_language` of apps/api/core/indexing.py: the most common language of a run's chunks. */
module Indexing {
  import opened Text

  const LANGUAGE_UNKNOWN: string := "und"

  /** The most frequent determined language; among equally frequent ones, the first by alphabet. */
  ghost predicate Dominant(languages: multiset<string>, best: string) {
    && best != LANGUAGE_UNKNOWN && best in languages
    && forall other | other in languages && other != LANGUAGE_UNKNOWN && other != best ::
         languages[other] < languages[best] || (languages[other] == languages[best] && LexLess(best, other))
  }

  /** What counting keeps: every determined language with the number of its chunks. */
  ghost predicate Counted(counts: map<string, nat>, languages: multiset<string>) {
    forall l :: (if l in counts then counts[l] else 0) == (if l == LANGUAGE_UNKNOWN then 0 else languages[l])
                && (l in counts ==> counts[l] > 0)
  }

  method DominantLanguage(languages: seq<string>) returns (dominant: Option<string>)
    ensures match dominant
            case Some(best) => Dominant(multiset(languages), best)
            case None => forall l | l in languages :: l == LANGUAGE_UNKNOWN
  {
    var counts: map<string, nat> := map[];
    for k := 0 to |languages|
      invariant Counted(counts, multiset(languages[..k]))
    {
      var language := languages[k];
      assert languages[..k + 1] == languages[..k] + [language];
      if language == LANGUAGE_UNKNOWN {
        continue;
      }
      counts := counts[language := (if language in counts then counts[language] else 0) + 1];
    }
    assert languages[..|languages|] == languages;
    if counts == map[] {
      forall l | l in languages ensures l == LANGUAGE_UNKNOWN {
        assert l in multiset(languages) && l !in counts;
      }
      return None;
    }
    var best := MostFrequent(counts);
    CountedDominant(counts, multiset(languages), best);
    return Some(best);
  }

  ghost predicate Leads(counts: map<string, nat>, among: set<string>, best: string)
    requires among <= counts.Keys
  {
    && best in among
    && forall other | other in among && other != best ::
         counts[other] < counts[best] || (counts[other] == counts[best] && LexLess(best, other))
  }

  /** `max(sorted(counts), key=...)`: the first in alphabetical order among those of greatest count,
      whichever order the keys are visited in. */
  method MostFrequent(counts: map<string, nat>) returns (best: string)
    requires counts != map[]
    ensures Leads(counts, counts.Keys, best)
  {
    assert counts.Keys != {};
    best :| best in counts.Keys;
    var rest := counts.Keys - {best};
    while rest != {}
      invariant rest <= counts.Keys && best !in rest && best in counts
      invariant Leads(counts, counts.Keys - rest, best)
      decreases rest
    {
      var next :| next in rest;
      rest := rest - {next};
      LexTotal(best, next);
      if counts[next] > counts[best] || (counts[next] == counts[best] && LexLess(next, best)) {
        forall other | other in counts.Keys - rest && other != next
          ensures counts[other] < counts[next] || (counts[other] == counts[next] && LexLess(next, other))
        {
          if other != best && counts[other] == counts[best] == counts[next] { LexTransitive(next, best, other); }
        }
        best := next;
      }
    }
  }

  lemma CountedDominant(counts: map<string, nat>, languages: multiset<string>, best: string)
    requires Counted(counts, languages) && Leads(counts, counts.Keys, best)
    ensures Dominant(languages, best)
  {
    assert best in counts;
    forall other | other in languages && other != LANGUAGE_UNKNOWN && other != best
      ensures languages[other] < languages[best] || (languages[other] == languages[best] && LexLess(best, other))
    {
      assert other in counts;
    }
  }

  lemma {:induction false} LexIrreflexive(a: string)
    ensures !LexLess(a, a)
  {
    if a != [] { LexIrreflexive(a[1..]); }
  }

  /** The answer depends on the chunks' languages alone, not on the order they come in. */
  lemma OrderDoesNotMatter(a: seq<string>, b: seq<string>, x: string, y: string)
    requires multiset(a) == multiset(b) && Dominant(multiset(a), x) && Dominant(multiset(b), y)
    ensures x == y
  {
    if x != y {
      assert LexLess(x, y) && LexLess(y, x);
      LexTransitive(x, y, x);
      LexIrreflexive(x);
    }
  }
}
