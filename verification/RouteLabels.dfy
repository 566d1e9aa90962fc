/** The route label of a request (`_route_of`, apps/api/core/middleware.py): the template is rebuilt
    from the path by putting parameter names back in the place of their values. */
module RouteLabels {
  import opened Text

  const UNMATCHED_ROUTE := "unmatched"

  datatype Param = Param(name: string, value: string)

  /** `by_value.get(segment)`: of two parameters with one value the later stands in the dictionary. */
  function NameOf(params: seq<Param>, segment: string): Option<string> {
    if params == [] then None
    else if params[|params| - 1].value == segment then Some(params[|params| - 1].name)
    else NameOf(params[..|params| - 1], segment)
  }

  function Braced(name: string): string { ['{'] + name + ['}'] }

  function Label(params: seq<Param>, segment: string): string {
    match NameOf(params, segment)
    case Some(name) => Braced(name)
    case None => segment
  }

  function Labels(params: seq<Param>, segments: seq<string>): (labels: seq<string>)
    ensures |labels| == |segments| && forall i | 0 <= i < |labels| :: labels[i] == Label(params, segments[i])
  {
    seq(|segments|, i requires 0 <= i < |segments| => Label(params, segments[i]))
  }

  /** `_route_of`. */
  function RouteOf(matched: bool, path: string, params: seq<Param>): string {
    if !matched then UNMATCHED_ROUTE
    else if params == [] then path
    else Join('/', Labels(params, SplitOn('/', path)))
  }

  /** A request no route matched is counted under one label, and one without parameters under its path. */
  lemma WithoutTemplate(path: string, params: seq<Param>)
    ensures RouteOf(false, path, params) == "unmatched"
    ensures RouteOf(true, path, []) == path
  {
  }

  // ----- requests of a route -----

  datatype Segment = Literal(text: string) | Placeholder(name: string, value: string) {
    function InPath(): string { if Literal? then text else value }
    function InTemplate(): string { if Literal? then text else "{" + name + "}" }
  }

  /** A matched route, segment by segment, with the values one request gave its parameters: no text
      crosses a slash, a literal holds no brace, and no name is used twice. */
  ghost predicate IsRoute(route: seq<Segment>) {
    && route != []
    && (forall i | 0 <= i < |route| :: '/' !in route[i].InPath() && '/' !in route[i].InTemplate())
    && (forall i | 0 <= i < |route| && route[i].Literal? :: '{' !in route[i].text)
    && (forall i, j | 0 <= i < j < |route| && route[i].Placeholder? && route[j].Placeholder? ::
          route[i].name != route[j].name)
  }

  function PathSegments(route: seq<Segment>): (texts: seq<string>)
    ensures |texts| == |route| && forall i | 0 <= i < |route| :: texts[i] == route[i].InPath()
  {
    seq(|route|, i requires 0 <= i < |route| => route[i].InPath())
  }

  function TemplateSegments(route: seq<Segment>): (texts: seq<string>)
    ensures |texts| == |route| && forall i | 0 <= i < |route| :: texts[i] == route[i].InTemplate()
  {
    seq(|route|, i requires 0 <= i < |route| => route[i].InTemplate())
  }

  function Path(route: seq<Segment>): string { Join('/', PathSegments(route)) }
  function Template(route: seq<Segment>): string { Join('/', TemplateSegments(route)) }

  /** The path parameters, in the order of the template. */
  function Params(route: seq<Segment>): seq<Param> {
    if route == [] then []
    else
      var n := |route| - 1;
      var before := Params(route[..n]);
      if route[n].Placeholder? then before + [Param(route[n].name, route[n].value)] else before
  }

  function RouteLabel(route: seq<Segment>): string { RouteOf(true, Path(route), Params(route)) }

  // ----- when the label is the template -----

  /** Two segments that the request makes look alike though the route tells them apart. */
  predicate Confused(a: Segment, b: Segment) {
    a.InPath() == b.InPath() && (a.Placeholder? || b.Placeholder?)
  }

  ghost predicate Unambiguous(route: seq<Segment>) {
    forall i, j | 0 <= i < j < |route| :: !Confused(route[i], route[j])
  }

  /** The last placeholder with a value. */
  ghost predicate LastWith(route: seq<Segment>, i: int, value: string) {
    && 0 <= i < |route| && route[i].Placeholder? && route[i].value == value
    && forall j | i < j < |route| && route[j].Placeholder? :: route[j].value != value
  }

  lemma {:induction false} NameOfExactly(route: seq<Segment>, value: string)
    ensures var named := NameOf(Params(route), value);
            && (named.None? <==> forall i | 0 <= i < |route| :: route[i].Placeholder? ==> route[i].value != value)
            && (named.Some? ==> exists i :: LastWith(route, i, value) && route[i].name == named.value)
  {
    if route != [] {
      var n := |route| - 1;
      var before := Params(route[..n]);
      NameOfExactly(route[..n], value);
      if route[n].Placeholder? {
        assert (before + [Param(route[n].name, route[n].value)])[..|before|] == before;
      }
      if route[n].Placeholder? && route[n].value == value {
        assert LastWith(route, n, value);
      } else if NameOf(before, value).Some? {
        var i :| LastWith(route[..n], i, value) && route[..n][i].name == NameOf(before, value).value;
        assert LastWith(route, i, value);
      }
    }
  }

  /** No other placeholder (behind this one, if it is one itself) has the text of this segment. */
  ghost predicate Alone(route: seq<Segment>, i: nat)
    requires i < |route|
  {
    forall j | 0 <= j < |route| && (route[i].Literal? || j > i) && route[j].Placeholder? ::
      route[j].value != route[i].InPath()
  }

  lemma BracedInjective(a: string, b: string)
    requires Braced(a) == Braced(b)
    ensures a == b
  {
    assert Braced(a)[1..|a| + 1] == a && Braced(b)[1..|b| + 1] == b;
  }

  lemma LiteralLabel(route: seq<Segment>, i: nat)
    requires IsRoute(route) && i < |route| && route[i].Literal?
    ensures Label(Params(route), route[i].text) == route[i].text <==> NameOf(Params(route), route[i].text).None?
  {
    var named := NameOf(Params(route), route[i].text);
    if named.Some? { assert Braced(named.value)[0] == '{'; }
  }

  /** `k` is the placeholder whose name the dictionary holds for the value of the one at `i`. */
  lemma PlaceholderLabel(route: seq<Segment>, i: nat, k: nat)
    requires IsRoute(route) && i < |route| && route[i].Placeholder? && LastWith(route, k, route[i].value)
    ensures Braced(route[k].name) == Braced(route[i].name) <==> k == i
    ensures k >= i
  {
    if Braced(route[k].name) == Braced(route[i].name) { BracedInjective(route[k].name, route[i].name); }
  }

  /** One segment is labelled as the template has it unless another placeholder shares its text. */
  lemma {:induction false} LabelOfSegment(route: seq<Segment>, i: nat)
    requires IsRoute(route) && i < |route|
    ensures Label(Params(route), route[i].InPath()) == route[i].InTemplate() <==> Alone(route, i)
  {
    NameOfExactly(route, route[i].InPath());
    if route[i].Literal? {
      LiteralLabel(route, i);
    } else {
      var k :| LastWith(route, k, route[i].value)
        && NameOf(Params(route), route[i].value) == Some(route[k].name);
      PlaceholderLabel(route, i, k);
      LastIsAlone(route, i, k);
    }
  }

  lemma LastIsAlone(route: seq<Segment>, i: nat, k: nat)
    requires i < |route| && route[i].Placeholder? && LastWith(route, k, route[i].value) && k >= i
    ensures k == i <==> Alone(route, i)
  {
  }

  lemma {:induction false} JoinInjective(sep: char, a: seq<string>, b: seq<string>)
    requires a != [] && b != []
    requires (forall p | p in a :: sep !in p) && (forall p | p in b :: sep !in p)
    ensures Join(sep, a) == Join(sep, b) <==> a == b
  {
    SplitJoin(sep, a);
    SplitJoin(sep, b);
  }

  lemma {:induction false} NamesInTemplate(route: seq<Segment>, value: string)
    requires forall i | 0 <= i < |route| :: '/' !in route[i].InTemplate()
    requires '/' !in value
    ensures '/' !in Label(Params(route), value)
  {
    NameOfExactly(route, value);
    var named := NameOf(Params(route), value);
    if named.Some? {
      var k :| LastWith(route, k, value) && route[k].name == named.value;
      assert '/' !in route[k].InTemplate();
    }
  }

  lemma {:induction false} LabelIsJoined(route: seq<Segment>)
    requires IsRoute(route)
    ensures RouteLabel(route) == Join('/', Labels(Params(route), PathSegments(route)))
    ensures forall p | p in Labels(Params(route), PathSegments(route)) :: '/' !in p
  {
    var texts := PathSegments(route);
    SplitJoin('/', texts);
    var labels := Labels(Params(route), texts);
    forall p | p in labels ensures '/' !in p {
      var i :| 0 <= i < |labels| && labels[i] == p;
      NamesInTemplate(route, texts[i]);
    }
    if Params(route) == [] { assert labels == texts; }
  }

  /** The label is the route's template exactly when no parameter value repeats another segment. */
  lemma LabelIsTemplateExactly(route: seq<Segment>)
    requires IsRoute(route)
    ensures RouteLabel(route) == Template(route) <==> Unambiguous(route)
  {
    var labels, template := Labels(Params(route), PathSegments(route)), TemplateSegments(route);
    LabelIsJoined(route);
    JoinInjective('/', labels, template);
    forall i | 0 <= i < |route| ensures labels[i] == template[i] <==> Alone(route, i) {
      LabelOfSegment(route, i);
    }
    assert labels == template <==> forall i | 0 <= i < |route| :: Alone(route, i);
    AloneExactly(route);
  }

  lemma AloneExactly(route: seq<Segment>)
    ensures (forall i | 0 <= i < |route| :: Alone(route, i)) <==> Unambiguous(route)
  {
    if Unambiguous(route) {
      forall i, j | 0 <= i < |route| && 0 <= j < |route| && (route[i].Literal? || j > i) && route[j].Placeholder?
        ensures route[j].value != route[i].InPath()
      {
        assert !Confused(route[if i < j then i else j], route[if i < j then j else i]);
      }
    } else {
      var i, j :| 0 <= i < j < |route| && Confused(route[i], route[j]);
      assert route[j].Placeholder? ==> !Alone(route, i);
      assert route[j].Literal? ==> !Alone(route, j);
    }
  }

  /** Requests of one route are counted together whatever their values, unless one is ambiguous. */
  lemma SameRouteSameLabel(a: seq<Segment>, b: seq<Segment>)
    requires IsRoute(a) && IsRoute(b) && Unambiguous(a) && Unambiguous(b)
    requires TemplateSegments(a) == TemplateSegments(b)
    ensures RouteLabel(a) == RouteLabel(b)
  {
    LabelIsTemplateExactly(a);
    LabelIsTemplateExactly(b);
  }

  /** Ambiguous or not, no parameter value is left standing as a segment of the label: what stands
      there is a name in braces or a text that is no value. */
  lemma NoValueShows(route: seq<Segment>, piece: string)
    requires IsRoute(route) && piece in SplitOn('/', RouteLabel(route))
    ensures (exists i | 0 <= i < |route| :: route[i].Placeholder? && piece == "{" + route[i].name + "}")
         || (forall i | 0 <= i < |route| :: route[i].Placeholder? ==> piece != route[i].value)
  {
    var texts := PathSegments(route);
    var labels := Labels(Params(route), texts);
    LabelIsJoined(route);
    SplitJoin('/', labels);
    var k :| 0 <= k < |labels| && labels[k] == piece;
    NameOfExactly(route, texts[k]);
  }

  /** A literal segment that happens to be a parameter's value is rewritten with it. */
  lemma LiteralCanBeRewritten(literal: string, name: string)
    requires '/' !in literal && '{' !in literal && '/' !in name
    ensures RouteLabel([Literal(literal), Placeholder(name, literal)])
         == Join('/', [Braced(name), Braced(name)])
         != Template([Literal(literal), Placeholder(name, literal)])
  {
    var route := [Literal(literal), Placeholder(name, literal)];
    assert IsRoute(route);
    assert Confused(route[0], route[1]);
    LabelIsTemplateExactly(route);
    LabelIsJoined(route);
    assert route[..1] == [Literal(literal)] && route[..1][..0] == [];
    assert Params(route[..1]) == [];
    assert Params(route) == [Param(name, literal)];
    assert Labels(Params(route), PathSegments(route)) == [Braced(name), Braced(name)];
  }
}
