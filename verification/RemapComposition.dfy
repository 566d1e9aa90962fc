/** Remapping twice is remapping once with the composed numbering: substitution commutes with the
    whitespace repair, and the repair is idempotent (apps/api/core/reports.py). */
module RemapComposition {
  import opened Text
  import opened Markers
  import opened Remap

  function Compose(f: Numbering, g: Numbering): Numbering {
    map n | n in f && f[n] in g :: g[f[n]]
  }

  // ----- substitution commutes with the repairs -----

  lemma SubstituteKeepsHead(u: string, g: Numbering)
    requires Covers(g, u)
    ensures Head(Substitute(u, g)) == Head(u)
  {
    if u != [] && MarkerAt(u).Some? {
      assert MarkerAt(u).value.number in FindMarkers(u);
    }
  }

  lemma {:induction false} RepairKeepsSolid(pass: Pass, s: string, x: string)
    requires forall c | c in s :: !IsSpace(c)
    ensures Repair(pass, s + x) == s + Repair(pass, x)
  {
    if s == [] {
      assert s + x == x;
    } else {
      assert (s + x)[1..] == s[1..] + x;
      RepairKeepsSolid(pass, s[1..], x);
      assert s[0] in s;
      assert [s[0]] + (s[1..] + Repair(pass, x)) == s + Repair(pass, x);
    }
  }

  lemma MarkerTextIsSolid(n: int)
    ensures forall c | c in MarkerText(n) :: !IsSpace(c)
  {
    forall c | c in MarkerText(n) ensures !IsSpace(c) {
      assert c == '[' || c == ']' || c in IntText(n);
    }
  }

  lemma {:induction false} RepairCommutes(pass: Pass, t: string, g: Numbering)
    requires Covers(g, t)
    ensures Substitute(Repair(pass, t), g) == Repair(pass, Substitute(t, g))
    decreases |t|
  {
    if t != [] {
      RepairKeepsMarkerAt(pass, t);
      match MarkerAt(t)
      case Some(hit) =>
        assert FindMarkers(t) == [hit.number] + FindMarkers(hit.rest);
        assert hit.number in FindMarkers(t);
        RepairCommutes(pass, hit.rest, g);
        MarkerTextIsSolid(g[hit.number]);
        RepairKeepsSolid(pass, MarkerText(g[hit.number]), Substitute(hit.rest, g));
      case None =>
        var r := Repair(pass, t[1..]);
        RepairCommutes(pass, t[1..], g);
        RepairKeepsMarkers(pass, t[1..]);
        SubstituteKeepsHead(r, g);
        assert Substitute(t, g)[1..] == Substitute(t[1..], g);
        match Act(pass, t[0], Head(r)) {
          case Keep => assert ([t[0]] + r)[1..] == r;
          case Drop =>
          case Merge =>
            assert ([' '] + r[1..])[1..] == r[1..];
            assert Substitute(r, g)[1..] == Substitute(r[1..], g);
        }
    }
  }

  lemma {:induction false} LStripCommutes(t: string, g: Numbering)
    requires Covers(g, t)
    ensures Substitute(LStrip(t), g) == LStrip(Substitute(t, g))
    decreases |t|
  {
    SubstituteKeepsHead(t, g);
    if t != [] && IsSpace(t[0]) {
      assert Substitute(t, g)[1..] == Substitute(t[1..], g);
      LStripCommutes(t[1..], g);
    }
  }

  lemma RepairWhitespaceCommutes(t: string, g: Numbering)
    requires Covers(g, t)
    ensures Substitute(RepairWhitespace(t), g) == RepairWhitespace(Substitute(t, g))
  {
    var u := Substitute(t, g);
    var a, b := CollapseBlanks(t), TidyPunctuation(CollapseBlanks(t));
    CollapseIsRepair(t); CollapseIsRepair(u);
    RepairCommutes(BlankRuns, t, g); RepairKeepsMarkers(BlankRuns, t);
    TidyIsRepair(a); TidyIsRepair(CollapseBlanks(u));
    RepairCommutes(BeforePunctuation, a, g); RepairKeepsMarkers(BeforePunctuation, a);
    LStripCommutes(b, g); LStripKeepsMarkers(b);
    RStripIsRepair(LStrip(b)); RStripIsRepair(LStrip(TidyPunctuation(CollapseBlanks(u))));
    RepairCommutes(AtEnd, LStrip(b), g);
  }

  // ----- the repair is idempotent -----

  /** A pass has nothing left to do. */
  predicate Settled(pass: Pass, s: string) {
    forall i | 0 <= i < |s| :: Act(pass, s[i], Head(s[i + 1..])) == Keep
  }

  lemma {:induction false} SettledIsFixed(pass: Pass, s: string)
    requires Settled(pass, s)
    ensures Repair(pass, s) == s
  {
    if s != [] {
      assert Act(pass, s[0], Head(s[1..])) == Keep;
      forall i | 0 <= i < |s[1..]| ensures Act(pass, s[1..][i], Head(s[1..][i + 1..])) == Keep {
        assert s[1..][i] == s[i + 1] && s[1..][i + 1..] == s[i + 2..];
      }
      SettledIsFixed(pass, s[1..]);
    }
  }

  lemma SettledStep(pass: Pass, c: char, s: string)
    requires Settled(pass, s) && Act(pass, c, Head(s)) == Keep
    ensures Settled(pass, [c] + s)
  {
    var t := [c] + s;
    assert t[1..] == s;
    forall i | 0 <= i < |t| ensures Act(pass, t[i], Head(t[i + 1..])) == Keep {
      if i > 0 { assert t[i] == s[i - 1] && t[i + 1..] == s[i..]; }
    }
  }

  lemma SettledSlice(pass: Pass, s: string, i: nat, j: nat)
    requires pass != AtEnd && Settled(pass, s) && i <= j <= |s|
    ensures Settled(pass, s[i..j])
  {
    forall k | 0 <= k < |s[i..j]| ensures Act(pass, s[i..j][k], Head(s[i..j][k + 1..])) == Keep {
      assert Act(pass, s[i + k], Head(s[i + k + 1..])) == Keep;
    }
  }

  lemma {:induction false} RepairSettles(pass: Pass, t: string)
    ensures Settled(pass, Repair(pass, t))
  {
    if t != [] {
      var r := Repair(pass, t[1..]);
      RepairSettles(pass, t[1..]);
      match Act(pass, t[0], Head(r)) {
        case Keep => SettledStep(pass, t[0], r);
        case Drop =>
        case Merge =>
          assert Act(pass, r[0], Head(r[1..])) == Keep;
          SettledSlice(pass, r, 1, |r|);
          assert r[1..|r|] == r[1..];
          SettledStep(pass, ' ', r[1..]);
      }
    }
  }

  /** Tidying punctuation brings no two blanks together. */
  lemma {:induction false} TidyKeepsBlanksApart(t: string)
    requires Settled(BlankRuns, t)
    ensures Settled(BlankRuns, Repair(BeforePunctuation, t))
  {
    if t != [] {
      var r := Repair(BeforePunctuation, t[1..]);
      SettledSlice(BlankRuns, t, 1, |t|);
      assert t[1..|t|] == t[1..];
      TidyKeepsBlanksApart(t[1..]);
      if Act(BeforePunctuation, t[0], Head(r)) == Keep {
        assert Act(BlankRuns, t[0], Head(t[1..])) == Keep;
        assert Head(r) == Head(t[1..]) || (Head(r).Some? && IsPunctuation(Head(r).value)) by {
          if t[1..] != [] { TidyHead(t[1..]); }
        }
        SettledStep(BlankRuns, t[0], r);
      }
    }
  }

  lemma TidyHead(t: string)
    requires t != []
    ensures var r := Repair(BeforePunctuation, t);
            r != [] && (r[0] == t[0] || IsPunctuation(r[0]))
  {
  }

  lemma RepairWhitespaceIdempotent(t: string)
    ensures RepairWhitespace(RepairWhitespace(t)) == RepairWhitespace(t)
  {
    var a, b := CollapseBlanks(t), TidyPunctuation(CollapseBlanks(t));
    CollapseIsRepair(t); RepairSettles(BlankRuns, t);
    TidyIsRepair(a); RepairSettles(BeforePunctuation, a); TidyKeepsBlanksApart(a);
    var i, j := StripIfIsSlice(IsSpace, b);
    var out := b[i..j];
    SettledSlice(BlankRuns, b, i, j); SettledSlice(BeforePunctuation, b, i, j);
    CollapseIsRepair(out); SettledIsFixed(BlankRuns, out);
    TidyIsRepair(out); SettledIsFixed(BeforePunctuation, out);
    StripIfIdempotent(IsSpace, b);
  }

  // ----- composition -----

  lemma {:induction false} SubstituteComposes(t: string, f: Numbering, g: Numbering)
    requires SplicedMarkers(t, f) == [] && TargetsFit(t, f)
    ensures Substitute(Substitute(t, f), g) == Substitute(t, Compose(f, g))
    decreases |t|
  {
    if t != [] {
      match MarkerAt(t)
      case Some(hit) =>
        assert FindMarkers(t) == [hit.number] + FindMarkers(hit.rest);
        SubstituteComposes(hit.rest, f, g);
        if hit.number in f {
          assert hit.number in FindMarkers(t);
          MarkerTextIsRead(f[hit.number], Substitute(hit.rest, f));
        } else {
          assert Substitute(t, f) == Substitute(hit.rest, f);
        }
      case None =>
        assert Substitute(t, f)[1..] == Substitute(t[1..], f);
        if t[0] == '[' { SubstituteBody(t[1..], f, 0, 0); }
        SubstituteComposes(t[1..], f, g);
    }
  }

  /** Numbering a section twice is numbering it once with the composed mapping, to the character,
      as long as the first step splices nothing and the second has an entry for what is left. */
  lemma RemapComposes(t: string, f: Numbering, g: Numbering)
    requires SplicedMarkers(t, f) == [] && TargetsFit(t, f)
    requires forall n | n in FindMarkers(t) && n in f :: f[n] in g
    ensures RemapMarkers(RemapMarkers(t, f), g) == RemapMarkers(t, Compose(f, g))
  {
    var u := Substitute(t, f);
    SubstituteLeaves(t, f);
    LeftAreRenumberedOrSpliced(t, f);
    RenumberedCovered(FindMarkers(t), f, g);
    RepairWhitespaceCommutes(u, g);
    RepairWhitespaceIdempotent(Substitute(u, g));
    SubstituteComposes(t, f, g);
  }

  lemma {:induction false} RenumberedCovered(markers: seq<nat>, f: Numbering, g: Numbering)
    requires forall n | n in markers && n in f :: f[n] in g
    ensures forall k | k in Renumbered(markers, f) :: k in g
  {
    if markers != [] {
      assert markers[0] in markers;
      RenumberedCovered(markers[1..], f, g);
    }
  }

  /** For mappings that cover the text there is nothing to check beyond writable targets. */
  lemma TotalRemapComposes(t: string, f: Numbering, g: Numbering)
    requires Covers(f, t) && TargetsFit(t, f)
    requires forall n | n in FindMarkers(t) :: f[n] in g
    ensures RemapMarkers(RemapMarkers(t, f), g) == RemapMarkers(t, Compose(f, g))
  {
    CoveredHasNoSplices(t, f);
    RemapComposes(t, f, g);
  }
}
