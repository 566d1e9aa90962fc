/** A text as its characters with the gaps between them, for saying what a repair of whitespace or
    line breaks does to every gap. What counts as a gap is a parameter. */
module Layouts {
  import opened Text

  /** A character that is no gap, with the gap directly before it. */
  datatype Spot = Spot(gap: string, ch: char)

  datatype Layout = Layout(spots: seq<Spot>, tail: string)

  function Prepend(c: char, l: Layout): Layout {
    if l.spots == [] then Layout([], [c] + l.tail)
    else Layout([Spot([c] + l.spots[0].gap, l.spots[0].ch)] + l.spots[1..], l.tail)
  }

  function Lay(isGap: char -> bool, s: string): Layout {
    if s == [] then Layout([], [])
    else
      var rest := Lay(isGap, s[1..]);
      if isGap(s[0]) then Prepend(s[0], rest) else Layout([Spot([], s[0])] + rest.spots, rest.tail)
  }

  function Spell(spots: seq<Spot>): string {
    if spots == [] then [] else spots[0].gap + [spots[0].ch] + Spell(spots[1..])
  }

  /** The gap at the start. */
  function FirstGap(l: Layout): string { if l.spots == [] then l.tail else l.spots[0].gap }

  function WithFirstGap(l: Layout, gap: string): Layout {
    if l.spots == [] then Layout([], gap) else Layout([Spot(gap, l.spots[0].ch)] + l.spots[1..], l.tail)
  }

  lemma PrependToGap(c: char, l: Layout)
    ensures Prepend(c, l) == WithFirstGap(l, [c] + FirstGap(l))
    ensures forall gap :: FirstGap(WithFirstGap(l, gap)) == gap
    ensures forall gap, more :: WithFirstGap(WithFirstGap(l, gap), more) == WithFirstGap(l, more)
  {
  }

  /** Exchanging the first character of a text that starts with a gap. */
  lemma HeadExchanged(isGap: char -> bool, c: char, s: string)
    requires s != [] && isGap(s[0]) && isGap(c)
    ensures Lay(isGap, [c] + s[1..]) == WithFirstGap(Lay(isGap, s), [c] + FirstGap(Lay(isGap, s))[1..])
  {
    var rest := Lay(isGap, s[1..]);
    PrependToGap(s[0], rest);
    PrependToGap(c, rest);
    assert ([c] + s[1..])[1..] == s[1..];
    assert ([s[0]] + FirstGap(rest))[1..] == FirstGap(rest);
  }

  predicate AllGap(isGap: char -> bool, gap: string) { forall i | 0 <= i < |gap| :: isGap(gap[i]) }

  /** The layout is the text, cut into its gaps and the characters between them. */
  lemma {:induction false} LayIsText(isGap: char -> bool, s: string)
    ensures var l := Lay(isGap, s);
            && Spell(l.spots) + l.tail == s && AllGap(isGap, l.tail)
            && forall k | 0 <= k < |l.spots| :: AllGap(isGap, l.spots[k].gap) && !isGap(l.spots[k].ch)
  {
    if s != [] {
      var rest := Lay(isGap, s[1..]);
      LayIsText(isGap, s[1..]);
      if isGap(s[0]) {
        PrependIsText(isGap, s[0], rest);
        assert [s[0]] + s[1..] == s;
      } else {
        var spots := [Spot([], s[0])] + rest.spots;
        assert spots[1..] == rest.spots;
        assert [s[0]] + (Spell(rest.spots) + rest.tail) == s;
      }
    }
  }

  lemma PrependIsText(isGap: char -> bool, c: char, l: Layout)
    requires isGap(c) && AllGap(isGap, l.tail)
    requires forall k | 0 <= k < |l.spots| :: AllGap(isGap, l.spots[k].gap) && !isGap(l.spots[k].ch)
    ensures var b := Prepend(c, l);
            && Spell(b.spots) + b.tail == [c] + (Spell(l.spots) + l.tail) && AllGap(isGap, b.tail)
            && forall k | 0 <= k < |b.spots| :: AllGap(isGap, b.spots[k].gap) && !isGap(b.spots[k].ch)
  {
    if l.spots != [] {
      var b := Prepend(c, l);
      assert b.spots[1..] == l.spots[1..];
      assert [c] + l.spots[0].gap + [l.spots[0].ch] + Spell(l.spots[1..])
          == [c] + (l.spots[0].gap + [l.spots[0].ch] + Spell(l.spots[1..]));
    }
  }

  /** Where a text starts with a gap, its layout does, and otherwise it does not. */
  lemma HeadOfLayout(isGap: char -> bool, s: string)
    ensures var l := Lay(isGap, s);
            && (s == [] <==> l.spots == [] && l.tail == [])
            && (FirstGap(l) != [] <==> s != [] && isGap(s[0]))
            && (s != [] && isGap(s[0]) ==>
                  if l.spots == [] then l.tail != [] && l.tail[0] == s[0]
                  else l.spots[0].gap != [] && l.spots[0].gap[0] == s[0])
            && (s != [] && !isGap(s[0]) ==> l.spots != [] && l.spots[0] == Spot([], s[0]))
  {
  }

  lemma {:induction false} LStripLayout(isGap: char -> bool, s: string)
    ensures var l := Lay(isGap, s);
            Lay(isGap, LStripIf(isGap, s))
            == if l.spots == [] then Layout([], []) else Layout([Spot([], l.spots[0].ch)] + l.spots[1..], l.tail)
  {
    if s != [] { LStripLayout(isGap, s[1..]); }
  }

  lemma {:induction false} RStripLayout(isGap: char -> bool, s: string)
    ensures Lay(isGap, RStripIf(isGap, s)) == Layout(Lay(isGap, s).spots, [])
  {
    if s != [] {
      RStripLayout(isGap, s[1..]);
      HeadOfLayout(isGap, RStripIf(isGap, s[1..]));
      var rest := RStripIf(isGap, s[1..]);
      assert ([s[0]] + rest)[1..] == rest;
    }
  }

  /** Stripping takes the gaps at the ends and leaves the others alone. */
  lemma StripLayout(isGap: char -> bool, s: string)
    ensures var l, r := Lay(isGap, s), Lay(isGap, StripIf(isGap, s));
            && r.tail == [] && |r.spots| == |l.spots|
            && forall k | 0 <= k < |l.spots| :: r.spots[k] == Spot(if k == 0 then [] else l.spots[k].gap, l.spots[k].ch)
  {
    LStripLayout(isGap, s);
    RStripLayout(isGap, LStripIf(isGap, s));
  }
}
