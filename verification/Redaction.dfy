/** The logging policy's redaction (apps/api/core/observability.py): `redact_mapping` over object
    graphs that may share and contain themselves. */
module Redaction {
  import opened Text

  const SENSITIVE_FIELD_FRAGMENTS: set<string> := {
    "password", "secret", "token", "credential", "authorization", "api_key", "apikey", "access_key",
    "private_key", "cookie", "session_key", "signature", "otp"
  }

  const CONTENT_FIELD_FRAGMENTS: set<string> := {
    "prompt", "completion", "answer_text", "question_text", "message_body", "email_body", "document_text",
    "extracted_text", "page_text", "passage", "chunk_text", "report_body", "sections_text", "raw_response"
  }

  predicate NamesFragment(lowered: string, fragments: set<string>) {
    exists fragment | fragment in fragments :: Contains(lowered, fragment)
  }

  predicate IsSensitiveField(lower: CaseMapping, name: string) {
    var lowered := MapCase(lower, name);
    NamesFragment(lowered, SENSITIVE_FIELD_FRAGMENTS) || NamesFragment(lowered, CONTENT_FIELD_FRAGMENTS)
  }

  lemma FragmentStaysNamed(lowered: string, before: string, after: string, fragments: set<string>)
    requires NamesFragment(lowered, fragments)
    ensures NamesFragment(before + lowered + after, fragments)
  {
    var fragment :| fragment in fragments && Contains(lowered, fragment);
    ContainsInside(lowered, fragment, before, after);
  }

  /** A longer name never loses protection: whatever surrounds a sensitive name is sensitive too. */
  lemma SensitiveInside(lower: CaseMapping, before: string, name: string, after: string)
    requires IsSensitiveField(lower, name)
    ensures IsSensitiveField(lower, before + name + after)
  {
    MapCaseConcat(lower, before + name, after);
    MapCaseConcat(lower, before, name);
    var lowered, b, a := MapCase(lower, name), MapCase(lower, before), MapCase(lower, after);
    if NamesFragment(lowered, SENSITIVE_FIELD_FRAGMENTS) {
      FragmentStaysNamed(lowered, b, a, SENSITIVE_FIELD_FRAGMENTS);
    } else {
      FragmentStaysNamed(lowered, b, a, CONTENT_FIELD_FRAGMENTS);
    }
  }

  /** The words that make a field's name sensitive: credentials, and the content of documents, prompts
      and messages. */
  lemma SensitiveWords()
    ensures SENSITIVE_FIELD_FRAGMENTS + CONTENT_FIELD_FRAGMENTS
         == {"password", "secret", "token", "credential", "authorization", "api_key", "apikey", "access_key",
             "private_key", "cookie", "session_key", "signature", "otp", "prompt", "completion", "answer_text",
             "question_text", "message_body", "email_body", "document_text", "extracted_text", "page_text", "passage",
             "chunk_text", "report_body", "sections_text", "raw_response"}
  {
  }

  /** One of the words occurs in the name, in any letter case. */
  ghost predicate Names(lower: CaseMapping, name: string, word: string) {
    exists before, after :: MapCase(lower, name) == before + word + after
  }

  lemma SensitiveExactly(lower: CaseMapping, name: string)
    ensures IsSensitiveField(lower, name)
       <==> exists word :: word in SENSITIVE_FIELD_FRAGMENTS + CONTENT_FIELD_FRAGMENTS && Names(lower, name, word)
  {
    SensitiveIffNamed(lower, name);
    forall word: string ensures Contains(MapCase(lower, name), word) <==> Names(lower, name, word) {
      ContainsExactly(MapCase(lower, name), word);
    }
  }

  lemma SensitiveIffNamed(lower: CaseMapping, name: string)
    ensures IsSensitiveField(lower, name)
       <==> NamesFragment(MapCase(lower, name), SENSITIVE_FIELD_FRAGMENTS + CONTENT_FIELD_FRAGMENTS)
  {
  }

  /** Letter case plays no part. */
  lemma CaseIgnored(lower: CaseMapping, a: string, b: string)
    requires MapCase(lower, a) == MapCase(lower, b)
    ensures IsSensitiveField(lower, a) <==> IsSensitiveField(lower, b)
  {
  }

  // ----- object graphs -----

  /** A reference to an object; what it refers to is looked up in a heap, so a structure may
      contain itself. */
  type Ref = nat

  datatype Entry = Entry(key: string, ref: Ref)

  datatype Body = Leaf(value: string) | Mapping(entries: seq<Entry>) | Items(elements: seq<Ref>)

  datatype Node = Node(typeName: string, body: Body)

  type Heap = Ref -> Node

  /** What the logger is handed: a finite tree. */
  datatype Output =
    | Value(typeName: string, value: string)
    | Dict(fields: seq<Field>)
    | List(items: seq<Output>)

  datatype Field = Field(key: string, value: Output)

  const REDACTED: Output := Value("str", "[redacted]")

  function Summary(typeName: string): Output { Value("str", "<" + typeName + ">") }

  type Policy = string -> bool

  /** `_redact_value`. The depth alone bounds the recursion; the heap may be cyclic. */
  function RedactValue(sensitive: Policy, heap: Heap, key: string, ref: Ref, depth: int): Output
    decreases if depth > 0 then depth else 0
  {
    if sensitive(key) then REDACTED
    else if depth <= 0 then Summary(heap(ref).typeName)
    else match heap(ref).body
      case Leaf(value) => Value(heap(ref).typeName, value)
      case Mapping(entries) =>
        Dict(seq(|entries|, i requires 0 <= i < |entries| =>
          Field(entries[i].key, RedactValue(sensitive, heap, entries[i].key, entries[i].ref, depth - 1))))
      case Items(elements) =>
        List(seq(|elements|, i requires 0 <= i < |elements| =>
          RedactValue(sensitive, heap, key, elements[i], depth - 1)))
  }

  /** `redact_mapping`. */
  function RedactMapping(sensitive: Policy, heap: Heap, fields: seq<Entry>, maxDepth: int): Output {
    Dict(seq(|fields|, i requires 0 <= i < |fields| =>
      Field(fields[i].key, RedactValue(sensitive, heap, fields[i].key, fields[i].ref, maxDepth))))
  }

  // ----- nothing sensitive shows -----

  /** Two objects look alike to a reader who may not see what `related` leaves open. */
  predicate Alike(related: (string, Ref, Ref) -> bool, key: string, a: Node, b: Node) {
    && a.typeName == b.typeName
    && match (a.body, b.body)
       case (Leaf(v), Leaf(w)) => v == w
       case (Mapping(s), Mapping(t)) =>
         |s| == |t| && forall i | 0 <= i < |s| :: s[i].key == t[i].key && related(s[i].key, s[i].ref, t[i].ref)
       case (Items(s), Items(t)) =>
         |s| == |t| && forall i | 0 <= i < |s| :: related(key, s[i], t[i])
       case _ => false
  }

  /** `related` pairs up two graphs, cycles included, that may differ in anything below a sensitive
      key and in nothing else. */
  ghost predicate DifferOnlyInSecrets(
    sensitive: Policy, first: Heap, second: Heap, related: (string, Ref, Ref) -> bool)
  {
    forall key, r, s | related(key, r, s) && !sensitive(key) :: Alike(related, key, first(r), second(s))
  }

  lemma {:induction false} ValueNonInterference(
      sensitive: Policy, first: Heap, second: Heap, related: (string, Ref, Ref) -> bool,
      key: string, r: Ref, s: Ref, depth: int)
    requires DifferOnlyInSecrets(sensitive, first, second, related) && related(key, r, s)
    ensures RedactValue(sensitive, first, key, r, depth) == RedactValue(sensitive, second, key, s, depth)
    decreases if depth > 0 then depth else 0
  {
    if !sensitive(key) {
      assert Alike(related, key, first(r), second(s));
      if depth > 0 {
        match (first(r).body, second(s).body)
        case (Leaf(v), Leaf(w)) =>
        case (Mapping(x), Mapping(y)) =>
          forall i | 0 <= i < |x|
            ensures RedactValue(sensitive, first, x[i].key, x[i].ref, depth - 1)
                 == RedactValue(sensitive, second, y[i].key, y[i].ref, depth - 1)
          {
            ValueNonInterference(sensitive, first, second, related, x[i].key, x[i].ref, y[i].ref, depth - 1);
          }
        case (Items(x), Items(y)) =>
          forall i | 0 <= i < |x|
            ensures RedactValue(sensitive, first, key, x[i], depth - 1)
                 == RedactValue(sensitive, second, key, y[i], depth - 1)
          {
            ValueNonInterference(sensitive, first, second, related, key, x[i], y[i], depth - 1);
          }
      }
    }
  }

  /** Non-interference: field sets that differ only below sensitive keys are logged identically, at
      every depth. */
  lemma NonInterference(
      sensitive: Policy, first: Heap, second: Heap, related: (string, Ref, Ref) -> bool,
      x: seq<Entry>, y: seq<Entry>, maxDepth: int)
    requires DifferOnlyInSecrets(sensitive, first, second, related)
    requires |x| == |y|
    requires forall i | 0 <= i < |x| :: x[i].key == y[i].key && related(x[i].key, x[i].ref, y[i].ref)
    ensures RedactMapping(sensitive, first, x, maxDepth) == RedactMapping(sensitive, second, y, maxDepth)
  {
    forall i | 0 <= i < |x|
      ensures RedactValue(sensitive, first, x[i].key, x[i].ref, maxDepth)
           == RedactValue(sensitive, second, y[i].key, y[i].ref, maxDepth)
    {
      ValueNonInterference(sensitive, first, second, related, x[i].key, x[i].ref, y[i].ref, maxDepth);
    }
  }

  /** Wherever a sensitive key appears in an output, its value is the redaction mark. */
  predicate Scrubbed(sensitive: Policy, output: Output) {
    match output
    case Value(_, _) => true
    case Dict(fields) =>
      forall i | 0 <= i < |fields| ::
        Scrubbed(sensitive, fields[i].value) && (sensitive(fields[i].key) ==> fields[i].value == REDACTED)
    case List(items) => forall i | 0 <= i < |items| :: Scrubbed(sensitive, items[i])
  }

  lemma {:induction false} ValueScrubbed(sensitive: Policy, heap: Heap, key: string, ref: Ref, depth: int)
    ensures Scrubbed(sensitive, RedactValue(sensitive, heap, key, ref, depth))
    decreases if depth > 0 then depth else 0
  {
    if !sensitive(key) && depth > 0 {
      match heap(ref).body
      case Leaf(_) =>
      case Mapping(entries) =>
        forall i | 0 <= i < |entries|
          ensures Scrubbed(sensitive, RedactValue(sensitive, heap, entries[i].key, entries[i].ref, depth - 1))
        {
          ValueScrubbed(sensitive, heap, entries[i].key, entries[i].ref, depth - 1);
        }
      case Items(elements) =>
        forall i | 0 <= i < |elements|
          ensures Scrubbed(sensitive, RedactValue(sensitive, heap, key, elements[i], depth - 1))
        {
          ValueScrubbed(sensitive, heap, key, elements[i], depth - 1);
        }
    }
  }

  lemma MappingScrubbed(sensitive: Policy, heap: Heap, fields: seq<Entry>, maxDepth: int)
    ensures Scrubbed(sensitive, RedactMapping(sensitive, heap, fields, maxDepth))
  {
    forall i | 0 <= i < |fields|
      ensures Scrubbed(sensitive, RedactValue(sensitive, heap, fields[i].key, fields[i].ref, maxDepth))
    {
      ValueScrubbed(sensitive, heap, fields[i].key, fields[i].ref, maxDepth);
    }
  }

  // ----- the bound -----

  /** Containers are nested at most `n` deep. */
  predicate NestedAtMost(output: Output, n: int) {
    match output
    case Value(_, _) => n >= 0
    case Dict(fields) => n >= 1 && forall i | 0 <= i < |fields| :: NestedAtMost(fields[i].value, n - 1)
    case List(items) => n >= 1 && forall i | 0 <= i < |items| :: NestedAtMost(items[i], n - 1)
  }

  lemma {:induction false} ValueNesting(sensitive: Policy, heap: Heap, key: string, ref: Ref, depth: int)
    ensures NestedAtMost(RedactValue(sensitive, heap, key, ref, depth), if depth > 0 then depth else 0)
    decreases if depth > 0 then depth else 0
  {
    if !sensitive(key) && depth > 0 {
      match heap(ref).body
      case Leaf(_) =>
      case Mapping(entries) =>
        forall i | 0 <= i < |entries|
          ensures NestedAtMost(RedactValue(sensitive, heap, entries[i].key, entries[i].ref, depth - 1), depth - 1)
        {
          ValueNesting(sensitive, heap, entries[i].key, entries[i].ref, depth - 1);
        }
      case Items(elements) =>
        forall i | 0 <= i < |elements|
          ensures NestedAtMost(RedactValue(sensitive, heap, key, elements[i], depth - 1), depth - 1)
        {
          ValueNesting(sensitive, heap, key, elements[i], depth - 1);
        }
    }
  }

  /** However the input is built, the log entry nests at most one level deeper than the bound. */
  lemma MappingNesting(sensitive: Policy, heap: Heap, fields: seq<Entry>, maxDepth: nat)
    ensures NestedAtMost(RedactMapping(sensitive, heap, fields, maxDepth), maxDepth + 1)
  {
    forall i | 0 <= i < |fields|
      ensures NestedAtMost(RedactValue(sensitive, heap, fields[i].key, fields[i].ref, maxDepth), maxDepth)
    {
      ValueNesting(sensitive, heap, fields[i].key, fields[i].ref, maxDepth);
    }
  }

  // ----- nothing else is lost -----

  /** Where a path of positions leads in the graph: the key in force there and the object. `None`
      when the path leaves the structure or passes below a sensitive key. */
  function Walk(sensitive: Policy, heap: Heap, key: string, ref: Ref, path: seq<nat>): Option<Entry>
    decreases |path|
  {
    if path == [] then Some(Entry(key, ref))
    else if sensitive(key) then None
    else match heap(ref).body
      case Leaf(_) => None
      case Mapping(entries) =>
        if path[0] < |entries| then
          Walk(sensitive, heap, entries[path[0]].key, entries[path[0]].ref, path[1..])
        else None
      case Items(elements) =>
        if path[0] < |elements| then Walk(sensitive, heap, key, elements[path[0]], path[1..]) else None
  }

  /** The same path followed in an output, with the key of the last field passed. */
  function Find(output: Output, key: string, path: seq<nat>): Option<Field> {
    if path == [] then Some(Field(key, output))
    else match output
      case Value(_, _) => None
      case Dict(fields) =>
        if path[0] < |fields| then Find(fields[path[0]].value, fields[path[0]].key, path[1..]) else None
      case List(items) => if path[0] < |items| then Find(items[path[0]], key, path[1..]) else None
  }

  /** Within the depth, the output has the shape and the keys of the input, and at every position not
      below a sensitive key it shows what redaction makes of the object there: the mark under a
      sensitive key, a leaf unchanged, a summary where the depth ends. */
  lemma {:induction false} ShapeKept(
      sensitive: Policy, heap: Heap, key: string, ref: Ref, depth: int, path: seq<nat>)
    requires |path| <= depth && Walk(sensitive, heap, key, ref, path).Some?
    ensures var at := Walk(sensitive, heap, key, ref, path).value;
            Find(RedactValue(sensitive, heap, key, ref, depth), key, path)
            == Some(Field(at.key, RedactValue(sensitive, heap, at.key, at.ref, depth - |path|)))
    decreases |path|
  {
    if path != [] {
      match heap(ref).body
      case Leaf(_) =>
      case Mapping(entries) =>
        ShapeKept(sensitive, heap, entries[path[0]].key, entries[path[0]].ref, depth - 1, path[1..]);
      case Items(elements) =>
        ShapeKept(sensitive, heap, key, elements[path[0]], depth - 1, path[1..]);
    }
  }

  /** A value outside sensitive keys and above the depth bound reaches the log as it is. */
  lemma {:induction false} HarmlessValueKept(
      sensitive: Policy, heap: Heap, key: string, ref: Ref, depth: int, path: seq<nat>)
    requires |path| < depth && Walk(sensitive, heap, key, ref, path).Some?
    requires var at := Walk(sensitive, heap, key, ref, path).value;
             !sensitive(at.key) && heap(at.ref).body.Leaf?
    ensures var at := Walk(sensitive, heap, key, ref, path).value;
            Find(RedactValue(sensitive, heap, key, ref, depth), key, path)
            == Some(Field(at.key, Value(heap(at.ref).typeName, heap(at.ref).body.value)))
  {
    ShapeKept(sensitive, heap, key, ref, depth, path);
  }

  /** The policy in force: a field whose name has one of the words in it is logged as the mark, whatever
      its value and the letter case of its name. */
  lemma NamedSecretIsMarked(
      lower: CaseMapping, heap: Heap, fields: seq<Entry>, maxDepth: int, i: nat, before: string, word: string,
      after: string)
    requires i < |fields| && MapCase(lower, fields[i].key) == before + word + after
    requires word in SENSITIVE_FIELD_FRAGMENTS + CONTENT_FIELD_FRAGMENTS
    ensures var output := RedactMapping(name => IsSensitiveField(lower, name), heap, fields, maxDepth);
            output.Dict? && |output.fields| == |fields|
            && output.fields[i] == Field(fields[i].key, Value("str", "[redacted]"))
  {
    ContainsExactly(MapCase(lower, fields[i].key), word);
    assert NamesFragment(MapCase(lower, fields[i].key), SENSITIVE_FIELD_FRAGMENTS + CONTENT_FIELD_FRAGMENTS);
    SensitiveIffNamed(lower, fields[i].key);
  }

  /** Where the depth ends, a value shows its type and nothing of itself. */
  lemma SummaryExactly(sensitive: Policy, heap: Heap, key: string, ref: Ref, depth: int)
    requires !sensitive(key) && depth <= 0
    ensures RedactValue(sensitive, heap, key, ref, depth) == Value("str", "<" + heap(ref).typeName + ">")
  {
  }
}
