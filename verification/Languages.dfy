/** Language negotiation (apps/api/core/localization.py): reading an `Accept-Language` header, and
    choosing among candidates in order of priority.

    Lower-casing and the reading of a float are parameters; a float is any value Python's `float`
    can return, the infinities and NaN included. */
module Languages {
  import opened Text

  const SUPPORTED_LANGUAGES: set<string> := {"en", "fr", "ar"}

  datatype Float = NegativeInfinity | Finite(value: real) | PositiveInfinity | NaN

  /** `a > b` on floats. */
  predicate Above(a: Float, b: Float) {
    match (a, b)
    case (Finite(x), Finite(y)) => x > y
    case (PositiveInfinity, PositiveInfinity) => false
    case (PositiveInfinity, NaN) => false
    case (PositiveInfinity, _) => true
    case (Finite(_), NegativeInfinity) => true
    case _ => false
  }

  /** `float(text)`: nothing stands for `ValueError`. */
  type FloatReader = string -> Option<Float>

  function TagEnd(s: string): nat {
    if s == [] || s[0] == '-' || s[0] == '_' then 0 else 1 + TagEnd(s[1..])
  }

  lemma TagEndBound(s: string)
    ensures TagEnd(s) <= |s|
  {
  }

  /** `normalize_language`: the primary subtag, if the platform serves it. */
  function NormalizeLanguage(lower: CaseMapping, value: Option<string>): (code: Option<string>)
    ensures code.Some? ==> code.value in SUPPORTED_LANGUAGES
  {
    if value.None? || value.value == [] then None
    else
      var tag := Strip(value.value);
      TagEndBound(tag);
      var primary := MapCase(lower, tag[..TagEnd(tag)]);
      if primary in SUPPORTED_LANGUAGES then Some(primary) else None
  }

  // ----- one entry of the header -----

  predicate NamesQuality(lower: CaseMapping, parameter: string) {
    MapCase(lower, Strip(Partition('=', Strip(parameter)).0)) == "q"
  }

  function QualityValue(read: FloatReader, parameter: string): Float {
    var value := read(Partition('=', Strip(parameter)).1);
    if value.None? then Finite(0.0) else value.value
  }

  /** The weight a parameter list gives: the last `q` counts, and without one the weight is 1. */
  function Quality(lower: CaseMapping, read: FloatReader, parameters: seq<string>): Float {
    if parameters == [] then Finite(1.0)
    else
      var n := |parameters| - 1;
      if NamesQuality(lower, parameters[n]) then QualityValue(read, parameters[n])
      else Quality(lower, read, parameters[..n])
  }

  datatype Offer = Offer(weight: Float, language: string)

  /** `quality <= 0`, which is false of NaN. */
  predicate Refused(weight: Float) {
    weight == NegativeInfinity || (weight.Finite? && weight.value <= 0.0)
  }

  /** What one entry of the header offers: a supported language that is not refused. */
  function OfferOf(lower: CaseMapping, read: FloatReader, part: string): Option<Offer> {
    var (tag, parameters) := Partition(';', Strip(part));
    var language := NormalizeLanguage(lower, Some(tag));
    var weight := Quality(lower, read, SplitOn(';', parameters));
    if language.None? || Refused(weight) then None else Some(Offer(weight, language.value))
  }

  function Offers(lower: CaseMapping, read: FloatReader, parts: seq<string>): seq<Offer> {
    if parts == [] then []
    else
      var n := |parts| - 1;
      var offer := OfferOf(lower, read, parts[n]);
      Offers(lower, read, parts[..n]) + if offer.Some? then [offer.value] else []
  }

  /** The offer that stands after going through the list: it yields only to a greater weight. */
  function Strongest(offers: seq<Offer>): Offer
    requires offers != []
  {
    var n := |offers| - 1;
    if n == 0 then offers[0]
    else
      var best := Strongest(offers[..n]);
      if Above(offers[n].weight, best.weight) then offers[n] else best
  }

  function AcceptedLanguage(lower: CaseMapping, read: FloatReader, header: string): Option<string> {
    if header == [] then None
    else
      var offers := Offers(lower, read, SplitOn(',', header));
      if offers == [] then None else Some(Strongest(offers).language)
  }

  // ----- the loops -----

  /** An entry as it is collected: the minus sign on the weight is left out, so the least entry is
      the one with the greatest weight and, among equal ones, the smallest position. */
  datatype Entry = Entry(weight: Float, position: nat, language: string)

  /** `a < b` on the collected tuples. */
  predicate Less(a: Entry, b: Entry) {
    if a.weight == b.weight && a.weight != NaN then a.position < b.position else Above(a.weight, b.weight)
  }

  method ReadQuality(lower: CaseMapping, read: FloatReader, parameters: seq<string>) returns (quality: Float)
    ensures quality == Quality(lower, read, parameters)
  {
    quality := Finite(1.0);
    for k := 0 to |parameters|
      invariant quality == Quality(lower, read, parameters[..k])
    {
      assert parameters[..k + 1][..k] == parameters[..k];
      if NamesQuality(lower, parameters[k]) {
        quality := QualityValue(read, parameters[k]);
      }
    }
    assert parameters[..|parameters|] == parameters;
  }

  /** `parse_accept_language`. */
  method ParseAcceptLanguage(lower: CaseMapping, read: FloatReader, header: Option<string>)
    returns (language: Option<string>)
    ensures language == if header.None? then None else AcceptedLanguage(lower, read, header.value)
  {
    if header.None? || header.value == [] { return None; }
    var parts := SplitOn(',', header.value);
    var weighted := CollectEntries(lower, read, parts);
    if weighted == [] { return None; }
    var best := Least(weighted, Offers(lower, read, parts), |parts|);
    return Some(best.language);
  }

  /** The loop over the header's entries. */
  method CollectEntries(lower: CaseMapping, read: FloatReader, parts: seq<string>) returns (weighted: seq<Entry>)
    ensures Collected(weighted, Offers(lower, read, parts), |parts|)
  {
    weighted := [];
    ghost var offers := Offers(lower, read, parts[..0]);
    for k := 0 to |parts|
      invariant offers == Offers(lower, read, parts[..k])
      invariant Collected(weighted, offers, k)
    {
      OffersNext(lower, read, parts, k);
      CollectedLater(weighted, offers, k);
      var (tag, parameters) := Partition(';', Strip(parts[k]));
      var code := NormalizeLanguage(lower, Some(tag));
      if code.None? {
        continue;
      }
      var quality := ReadQuality(lower, read, SplitOn(';', parameters));
      if Refused(quality) {
        continue;
      }
      var entry := Entry(quality, k, code.value);
      CollectedAppend(weighted, offers, k, entry);
      weighted := weighted + [entry];
      offers := offers + [Offer(quality, code.value)];
    }
    assert parts[..|parts|] == parts;
  }

  /** The entries collected so far are the offers so far, at increasing positions. */
  ghost predicate Collected(entries: seq<Entry>, offers: seq<Offer>, bound: nat) {
    && |entries| == |offers|
    && (forall i | 0 <= i < |entries| ::
          entries[i].weight == offers[i].weight && entries[i].language == offers[i].language)
    && (forall i | 0 <= i < |entries| :: entries[i].position < bound)
    && (forall i, j | 0 <= i < j < |entries| :: entries[i].position < entries[j].position)
  }

  lemma CollectedAppend(entries: seq<Entry>, offers: seq<Offer>, bound: nat, entry: Entry)
    requires Collected(entries, offers, bound) && entry.position == bound
    ensures Collected(entries + [entry], offers + [Offer(entry.weight, entry.language)], bound + 1)
  {
  }

  lemma CollectedLater(entries: seq<Entry>, offers: seq<Offer>, bound: nat)
    requires Collected(entries, offers, bound)
    ensures Collected(entries, offers, bound + 1)
  {
  }

  lemma OffersNext(lower: CaseMapping, read: FloatReader, parts: seq<string>, k: nat)
    requires k < |parts|
    ensures var offer := OfferOf(lower, read, parts[k]);
            var before := Offers(lower, read, parts[..k]);
            Offers(lower, read, parts[..k + 1]) == if offer.Some? then before + [offer.value] else before
  {
    assert parts[..k + 1][..k] == parts[..k];
  }

  /** `min(weighted)`: keep the first entry, replace it whenever a lesser one comes. */
  method Least(entries: seq<Entry>, ghost offers: seq<Offer>, ghost bound: nat) returns (best: Entry)
    requires entries != [] && Collected(entries, offers, bound)
    ensures Offer(best.weight, best.language) == Strongest(offers)
  {
    best := entries[0];
    assert offers[..1] == [offers[0]];
    for k := 1 to |entries|
      invariant Offer(best.weight, best.language) == Strongest(offers[..k])
      invariant best.position < if k < |entries| then entries[k].position else bound
    {
      assert offers[..k + 1][..k] == offers[..k];
      if Less(entries[k], best) {
        best := entries[k];
      }
    }
    assert offers[..|offers|] == offers;
  }

  // ----- what one entry says -----

  /** Without a `q` the weight is one. */
  lemma {:induction false} WeightWithoutQ(lower: CaseMapping, read: FloatReader, parameters: seq<string>)
    requires forall k | 0 <= k < |parameters| :: !NamesQuality(lower, parameters[k])
    ensures Quality(lower, read, parameters) == Finite(1.0)
  {
    if parameters != [] { WeightWithoutQ(lower, read, parameters[..|parameters| - 1]); }
  }

  /** With several the last one counts, and one that is no number counts as zero. */
  lemma {:induction false} WeightOfLastQ(
      lower: CaseMapping, read: FloatReader, parameters: seq<string>, k: nat, name: string, value: string)
    requires k < |parameters| && Strip(parameters[k]) == name + "=" + value && '=' !in name
    requires MapCase(lower, Strip(name)) == "q"
    requires forall m | k < m < |parameters| :: !NamesQuality(lower, parameters[m])
    ensures Quality(lower, read, parameters)
         == if read(value).None? then Finite(0.0) else read(value).value
  {
    var n := |parameters| - 1;
    if k < n {
      WeightOfLastQ(lower, read, parameters[..n], k, name, value);
    } else {
      PartitionHead('=', name, value);
      assert name + ['='] + value == name + "=" + value;
    }
  }

  lemma {:induction false} TagEndAt(primary: string, rest: string)
    requires '-' !in primary && '_' !in primary
    requires rest == [] || rest[0] == '-' || rest[0] == '_'
    ensures TagEnd(primary + rest) == |primary|
  {
    if primary == [] {
      assert primary + rest == rest;
    } else {
      assert (primary + rest)[1..] == primary[1..] + rest;
      TagEndAt(primary[1..], rest);
    }
  }

  /** A tag is read by what stands before its first hyphen or underscore, in lower case: English, French
      and Arabic are served, and nothing else. */
  lemma PrimarySubtag(lower: CaseMapping, primary: string, rest: string)
    requires '-' !in primary && '_' !in primary
    requires rest == [] || rest[0] == '-' || rest[0] == '_'
    requires primary != [] && Strip(primary + rest) == primary + rest
    ensures var language := MapCase(lower, primary);
            NormalizeLanguage(lower, Some(primary + rest))
            == if language == "en" || language == "fr" || language == "ar" then Some(language) else None
  {
    TagEndAt(primary, rest);
    assert (primary + rest)[..|primary|] == primary;
  }

  /** An entry without parameters is offered at the weight one. */
  lemma PlainEntry(lower: CaseMapping, read: FloatReader, tag: string)
    requires ';' !in tag && Strip(tag) == tag
    ensures OfferOf(lower, read, tag)
         == match NormalizeLanguage(lower, Some(tag))
            case Some(language) => Some(Offer(Finite(1.0), language))
            case None => None
  {
    PartitionNone(';', tag);
    assert SplitOn(';', "") == [""];
    assert Partition('=', Strip("")) == ([], []);
    WeightWithoutQ(lower, read, [""]);
  }

  // ----- what the choice means -----

  /** `best` is the first-listed among the offers of greatest weight. */
  ghost predicate FirstOfGreatest(offers: seq<Offer>, at: nat) {
    && at < |offers| && offers[at].weight != NaN
    && forall i | 0 <= i < |offers| && offers[i].weight != NaN ::
         if i < at then Above(offers[at].weight, offers[i].weight) else !Above(offers[i].weight, offers[at].weight)
  }

  lemma {:induction false} StrongestIsFirstOfGreatest(offers: seq<Offer>) returns (at: nat)
    requires offers != [] && offers[0].weight != NaN
    ensures FirstOfGreatest(offers, at) && Strongest(offers) == offers[at]
  {
    var n := |offers| - 1;
    if n == 0 {
      at := 0;
    } else {
      at := StrongestIsFirstOfGreatest(offers[..n]);
      assert forall i | 0 <= i < n :: offers[..n][i] == offers[i];
      if Above(offers[n].weight, offers[at].weight) {
        at := n;
      }
    }
  }

  lemma {:induction false} NaNStays(offers: seq<Offer>)
    requires offers != [] && offers[0].weight == NaN
    ensures Strongest(offers) == offers[0]
  {
    var n := |offers| - 1;
    if n > 0 { NaNStays(offers[..n]); }
  }

  /** The entry chosen is the first-listed of greatest weight exactly unless the first usable entry
      has the weight NaN, which nothing displaces. */
  lemma ChoiceExactly(offers: seq<Offer>)
    requires offers != []
    ensures (exists at: nat :: FirstOfGreatest(offers, at) && Strongest(offers) == offers[at])
       <==> offers[0].weight != NaN
  {
    if offers[0].weight != NaN {
      var at := StrongestIsFirstOfGreatest(offers);
    } else {
      NaNStays(offers);
    }
  }

  predicate Usable(lower: CaseMapping, read: FloatReader, part: string) { OfferOf(lower, read, part).Some? }

  predicate AnyUsable(lower: CaseMapping, read: FloatReader, parts: seq<string>) {
    exists part | part in parts :: Usable(lower, read, part)
  }

  /** There is an answer exactly when some entry names a served language at a weight above zero. */
  lemma AnsweredExactly(lower: CaseMapping, read: FloatReader, header: string)
    requires header != []
    ensures AcceptedLanguage(lower, read, header).Some? <==> AnyUsable(lower, read, SplitOn(',', header))
  {
    OffersExist(lower, read, SplitOn(',', header));
  }

  lemma {:induction false} OffersExist(lower: CaseMapping, read: FloatReader, parts: seq<string>)
    ensures Offers(lower, read, parts) != [] <==> AnyUsable(lower, read, parts)
  {
    if parts != [] {
      var n := |parts| - 1;
      OffersExist(lower, read, parts[..n]);
      assert parts == parts[..n] + [parts[n]];
      assert AnyUsable(lower, read, parts) <==> AnyUsable(lower, read, parts[..n]) || Usable(lower, read, parts[n]);
    }
  }

  lemma {:induction false} OffersConcat(lower: CaseMapping, read: FloatReader, a: seq<string>, b: seq<string>)
    ensures Offers(lower, read, a + b) == Offers(lower, read, a) + Offers(lower, read, b)
  {
    if b == [] {
      assert a + b == a;
    } else {
      var n := |b| - 1;
      assert (a + b)[..|a + b| - 1] == a + b[..n];
      OffersConcat(lower, read, a, b[..n]);
    }
  }

  /** With parameters it is offered at the weight they give, unless that is zero or less. */
  lemma EntryOffer(lower: CaseMapping, read: FloatReader, tag: string, parameters: string)
    requires ';' !in tag && Strip(tag + [';'] + parameters) == tag + [';'] + parameters
    ensures var language := NormalizeLanguage(lower, Some(tag));
            var weight := Quality(lower, read, SplitOn(';', parameters));
            OfferOf(lower, read, tag + [';'] + parameters)
            == if language.None? || weight == NegativeInfinity || (weight.Finite? && weight.value <= 0.0) then None
               else Some(Offer(weight, language.value))
  {
    PartitionHead(';', tag, parameters);
  }

  lemma ServedTag(tag: string)
    requires tag in SUPPORTED_LANGUAGES
    ensures NormalizeLanguage(IDENTITY, Some(tag)) == Some(tag)
  {
    StripIfFixed(IsSpace, tag);
    assert tag[1..][1..] == [] && TagEnd(tag) == 1 + TagEnd(tag[1..]) == 2 && tag[..2] == tag;
    MapCaseIdentity(tag);
  }

  lemma QualityParameter(read: FloatReader, value: string)
    requires value != [] && !IsSpace(value[|value| - 1]) && read(value).Some?
    ensures NamesQuality(IDENTITY, "q=" + value) && QualityValue(read, "q=" + value) == read(value).value
  {
    var parameter := "q" + ['='] + value;
    assert parameter == "q=" + value;
    StripIfFixed(IsSpace, parameter);
    PartitionHead('=', "q", value);
    StripIfFixed(IsSpace, "q");
    MapCaseIdentity("q");
  }

  lemma {:induction false} QualityOf(read: FloatReader, value: string)
    requires ';' !in value && value != [] && !IsSpace(value[|value| - 1]) && read(value).Some?
    ensures Quality(IDENTITY, read, SplitOn(';', "q=" + value)) == read(value).value
  {
    QualityParameter(read, value);
    SplitUnsplit(';', "q=" + value);
  }

  /** A served language with a weight, as a header spells it. */
  function WeightedTag(tag: string, value: string): string { tag + [';'] + ("q=" + value) }

  lemma WeightedTagOffer(read: FloatReader, tag: string, value: string)
    requires tag in SUPPORTED_LANGUAGES && read(value).Some? && !Refused(read(value).value)
    requires ';' !in value && value != [] && !IsSpace(value[|value| - 1])
    ensures OfferOf(IDENTITY, read, WeightedTag(tag, value)) == Some(Offer(read(value).value, tag))
  {
    var part := WeightedTag(tag, value);
    assert part[|part| - 1] == value[|value| - 1] && part[0] == tag[0];
    StripIfFixed(IsSpace, part);
    EntryOffer(IDENTITY, read, tag, "q=" + value);
    ServedTag(tag);
    QualityOf(read, value);
  }

  lemma OneOffer(lower: CaseMapping, read: FloatReader, part: string)
    requires OfferOf(lower, read, part).Some?
    ensures Offers(lower, read, [part]) == [OfferOf(lower, read, part).value]
  {
    assert [part][..0] == [];
  }

  lemma TwoOffers(lower: CaseMapping, read: FloatReader, a: string, b: string)
    requires ',' !in a && ',' !in b && OfferOf(lower, read, a).Some? && OfferOf(lower, read, b).Some?
    ensures Offers(lower, read, SplitOn(',', a + [','] + b))
         == [OfferOf(lower, read, a).value, OfferOf(lower, read, b).value]
  {
    SplitHead(',', a, b);
    SplitUnsplit(',', b);
    OneOffer(lower, read, a);
    OneOffer(lower, read, b);
    OffersConcat(lower, read, [a], [b]);
    assert [a] + [b] == [a, b];
  }

  lemma FirstNaNWins(lower: CaseMapping, read: FloatReader, a: string, b: string, language: string)
    requires ',' !in a && ',' !in b && OfferOf(lower, read, a) == Some(Offer(NaN, language))
    requires OfferOf(lower, read, b).Some?
    ensures AcceptedLanguage(lower, read, a + [','] + b) == Some(language)
  {
    TwoOffers(lower, read, a, b);
    NaNStays([OfferOf(lower, read, a).value, OfferOf(lower, read, b).value]);
  }

  lemma NoComma(tag: string, value: string)
    requires tag in SUPPORTED_LANGUAGES && ',' !in value
    ensures ',' !in WeightedTag(tag, value)
  {
  }

  /** `fr;q=nan,en;q=1` asks for French. */
  lemma NaNWinsExample(read: FloatReader)
    requires read("nan") == Some(NaN) && read("1") == Some(Finite(1.0))
    ensures AcceptedLanguage(IDENTITY, read, WeightedTag("fr", "nan") + [','] + WeightedTag("en", "1")) == Some("fr")
  {
    WeightedTagOffer(read, "fr", "nan"); NoComma("fr", "nan");
    WeightedTagOffer(read, "en", "1"); NoComma("en", "1");
    FirstNaNWins(IDENTITY, read, WeightedTag("fr", "nan"), WeightedTag("en", "1"), "fr");
  }

  /** Unsupported and refused entries have no influence: taking one out of the header leaves the
      answer as it was. */
  lemma UselessEntryIgnored(
      lower: CaseMapping, read: FloatReader, before: seq<string>, part: string, after: seq<string>)
    requires OfferOf(lower, read, part).None?
    requires forall p | p in before + [part] + after :: ',' !in p
    ensures AcceptedLanguage(lower, read, Join(',', before + [part] + after))
         == AcceptedLanguage(lower, read, Join(',', before + after))
  {
    var with, without := before + [part] + after, before + after;
    OffersConcat(lower, read, before + [part], after);
    OffersConcat(lower, read, before, [part]);
    OffersConcat(lower, read, before, after);
    assert [part][..0] == [];
    assert Offers(lower, read, with) == Offers(lower, read, without);
    HeaderOffers(lower, read, with);
    forall p | p in without ensures ',' !in p { assert p in with; }
    HeaderOffers(lower, read, without);
  }

  lemma HeaderOffers(lower: CaseMapping, read: FloatReader, parts: seq<string>)
    requires forall p | p in parts :: ',' !in p
    ensures var offers := Offers(lower, read, parts);
            AcceptedLanguage(lower, read, Join(',', parts))
            == if offers == [] then None else Some(Strongest(offers).language)
  {
    if parts != [] {
      SplitJoin(',', parts);
      if Join(',', parts) == [] {
        assert parts == [""];
        NothingOffered(lower, read);
      }
    }
  }

  lemma NothingOffered(lower: CaseMapping, read: FloatReader)
    ensures Offers(lower, read, [""]) == []
  {
    assert OfferOf(lower, read, "").None?;
    assert [""][..0] == [];
  }

  // ----- candidates in order of priority -----

  /** `resolve_language`: the first candidate that names a served language, or the default. */
  method ResolveLanguage(lower: CaseMapping, candidates: seq<Option<string>>, default: string)
    returns (language: string)
    ensures (forall i | 0 <= i < |candidates| :: NormalizeLanguage(lower, candidates[i]).None?)
        ==> language == default
    ensures forall i | 0 <= i < |candidates| && NormalizeLanguage(lower, candidates[i]).Some? ::
              (forall j | 0 <= j < i :: NormalizeLanguage(lower, candidates[j]).None?)
              ==> Some(language) == NormalizeLanguage(lower, candidates[i])
  {
    for k := 0 to |candidates|
      invariant forall j | 0 <= j < k :: NormalizeLanguage(lower, candidates[j]).None?
    {
      var resolved := NormalizeLanguage(lower, candidates[k]);
      if resolved.Some? {
        return resolved.value;
      }
    }
    return default;
  }
}
