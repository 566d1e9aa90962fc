/** Trace context (apps/api/core/tracing.py): the `traceparent` header of W3C Trace Context, section
    3.2, child spans, and the ambient current context. Freshly minted span identifiers and
    `str.isprintable` are parameters. */
module Tracing {
  import opened Text

  predicate IsHexDigit(c: char) { '0' <= c <= '9' || 'a' <= c <= 'f' }

  predicate IsHex(value: string, length: nat) {
    |value| == length && forall c | c in value :: IsHexDigit(c)
  }

  predicate AllZero(value: string) { forall c | c in value :: c == '0' }

  datatype TraceContext = TraceContext(
    traceId: string, spanId: string, parentSpanId: Option<string>,
    sampled: bool, traceState: Option<string>, remote: bool)
  {
    /** `child`, with the span identifier already minted. */
    function Child(newSpanId: string): TraceContext {
      this.(spanId := newSpanId, parentSpanId := Some(spanId), remote := false)
    }

    /** The identifiers are what the format allows. */
    predicate WellFormed() {
      && IsHex(traceId, 32) && !AllZero(traceId)
      && IsHex(spanId, 16) && !AllZero(spanId)
    }
  }

  function HexValue(c: char): nat
    requires IsHexDigit(c)
  {
    if c <= '9' then (c as int) - 48 else (c as int) - 87
  }

  /** Version, trace, span and what follows, joined by hyphens. */
  function Header(trace: string, span: string, last: string): string {
    "00" + ['-'] + (trace + ['-'] + (span + ['-'] + last))
  }

  function FormatTraceparent(context: TraceContext): string {
    Header(context.traceId, context.spanId, if context.sampled then "01" else "00")
  }

  /** `_clean_trace_state`. */
  function CleanTraceState(isPrintable: char -> bool, value: Option<string>): Option<string> {
    if value.None? || value.value == [] then None
    else
      var cleaned := Strip(KeepPrintable(isPrintable, value.value));
      if cleaned == [] then None
      else Some(if |cleaned| <= 512 then cleaned else cleaned[..512])
  }

  function KeepPrintable(isPrintable: char -> bool, s: string): string {
    if s == [] then []
    else if isPrintable(s[0]) && s[0] != '\r' && s[0] != '\n' then [s[0]] + KeepPrintable(isPrintable, s[1..])
    else KeepPrintable(isPrintable, s[1..])
  }

  /** The header's fields are those of a context this platform accepts. */
  predicate AcceptedFields(parts: seq<string>) {
    && |parts| >= 4 && parts[0] == "00"
    && IsHex(parts[1], 32) && !AllZero(parts[1])
    && IsHex(parts[2], 16) && !AllZero(parts[2])
    && IsHex(parts[3], 2)
  }

  /** `parse_traceparent`; `newSpanId` is the span identifier minted for this process. */
  function ParseTraceparent(
    isPrintable: char -> bool, header: Option<string>, traceState: Option<string>, newSpanId: string)
    : Option<TraceContext>
  {
    if header.None? || header.value == [] then None
    else
      var parts := SplitOn('-', Strip(header.value));
      if !AcceptedFields(parts) then None
      else Some(TraceContext(
        parts[1], newSpanId, Some(parts[2]),
        (16 * HexValue(parts[3][0]) + HexValue(parts[3][1])) % 2 == 1,
        CleanTraceState(isPrintable, traceState), true))
  }

  // ----- the header -----

  lemma HexHasNoHyphen(value: string, length: nat)
    requires IsHex(value, length)
    ensures '-' !in value
  {
  }

  lemma SplitHeader(trace: string, span: string, last: string)
    requires '-' !in trace && '-' !in span
    ensures SplitOn('-', Header(trace, span, last)) == ["00", trace, span] + SplitOn('-', last)
  {
    SplitHead('-', span, last);
    SplitHead('-', trace, span + ['-'] + last);
    SplitHead('-', "00", trace + ['-'] + (span + ['-'] + last));
  }

  lemma HeaderIsStripped(context: TraceContext)
    ensures Strip(FormatTraceparent(context)) == FormatTraceparent(context)
  {
    var s := FormatTraceparent(context);
    assert s[0] == '0';
    assert s[|s| - 1] == '0' || s[|s| - 1] == '1';
    StripIfFixed(IsSpace, s);
  }

  /** The context that belongs to a header as sent: the same trace and sampling decision, with the
      sender's span as the parent. */
  function Received(
    isPrintable: char -> bool, context: TraceContext, traceState: Option<string>, newSpanId: string): TraceContext
  {
    TraceContext(context.traceId, newSpanId, Some(context.spanId), context.sampled,
                 CleanTraceState(isPrintable, traceState), true)
  }

  /** What a service sends on, another reads back exactly if the identifiers are well formed; others
      are refused unless they bring hyphens of their own into the header. */
  lemma HeaderRoundTrip(
      isPrintable: char -> bool, context: TraceContext, traceState: Option<string>, newSpanId: string)
    ensures ParseTraceparent(isPrintable, Some(FormatTraceparent(context)), traceState, newSpanId)
         == Some(Received(isPrintable, context, traceState, newSpanId))
       <==> context.WellFormed()
    ensures !context.WellFormed() && '-' !in context.traceId && '-' !in context.spanId ==>
              ParseTraceparent(isPrintable, Some(FormatTraceparent(context)), traceState, newSpanId) == None
  {
    HeaderIsStripped(context);
    if '-' !in context.traceId && '-' !in context.spanId {
      var flags := if context.sampled then "01" else "00";
      SplitHeader(context.traceId, context.spanId, flags);
      SplitUnsplit('-', flags);
    }
  }

  /** With hyphens in an identifier the header is read as that of another trace. */
  lemma HyphensShiftFields(
      isPrintable: char -> bool, trace: string, span: string, rest: string, newSpanId: string)
    requires IsHex(trace, 32) && !AllZero(trace) && IsHex(span, 16) && !AllZero(span) && '-' !in rest
    ensures var context := TraceContext(trace + ['-'] + span, "01" + ['-'] + rest, None, false, None, false);
            var read := ParseTraceparent(isPrintable, Some(FormatTraceparent(context)), None, newSpanId);
            read.Some? && read.value.traceId == trace && read.value.sampled
  {
    var context := TraceContext(trace + ['-'] + span, "01" + ['-'] + rest, None, false, None, false);
    HeaderIsStripped(context);
    assert FormatTraceparent(context) == Header(trace, span, "01" + ['-'] + (rest + ['-'] + "00"));
    HexHasNoHyphen(trace, 32);
    HexHasNoHyphen(span, 16);
    SplitHeader(trace, span, "01" + ['-'] + (rest + ['-'] + "00"));
    SplitHead('-', "01", rest + ['-'] + "00");
  }

  /** A header in the layout of the specification, possibly with further fields behind the flags. */
  ghost predicate Layout(header: string, trace: string, span: string, flags: string) {
    || header == Header(trace, span, flags)
    || exists rest: string :: header == Header(trace, span, flags + ['-'] + rest)
  }

  /** The lowest bit of the flags is set: their last hexadecimal digit is odd. */
  predicate SampledFlag(flags: string)
    requires IsHex(flags, 2)
  {
    flags[1] in {'1', '3', '5', '7', '9', 'b', 'd', 'f'}
  }

  /** The header, stripped, has that layout with lowercase hexadecimal fields of the right lengths and
      identifiers that are not all zero. */
  ghost predicate Spells(header: string, trace: string, span: string, flags: string) {
    Layout(Strip(header), trace, span, flags) && AcceptedFields(["00", trace, span, flags])
  }

  /** Lower-case hexadecimal digits, and zeros only. */
  lemma FieldsExactly(value: string, length: nat)
    ensures IsHex(value, length)
       <==> |value| == length && forall i | 0 <= i < |value| :: value[i] in "0123456789abcdef"
    ensures AllZero(value) <==> forall i | 0 <= i < |value| :: value[i] == '0'
  {
    assert "0123456789abcdef"
        == ['0', '1', '2', '3', '4', '5', '6', '7', '8', '9', 'a', 'b', 'c', 'd', 'e', 'f'];
    assert AllZero(value) ==> forall i | 0 <= i < |value| :: value[i] in value;
    assert IsHex(value, length) ==> forall i | 0 <= i < |value| :: value[i] in value;
  }

  /** What such a header says: its trace, its span as the parent, and its sampling flag. */
  function Announced(
    isPrintable: char -> bool, trace: string, span: string, flags: string, traceState: Option<string>,
    newSpanId: string): TraceContext
    requires IsHex(flags, 2)
  {
    var sent := TraceContext(trace, span, None, SampledFlag(flags), None, false);
    Received(isPrintable, sent, traceState, newSpanId)
  }

  /** A header is read exactly if it has the layout, and then as what it says. */
  lemma AcceptedExactly(
      isPrintable: char -> bool, header: string, traceState: Option<string>, newSpanId: string, read: TraceContext)
    ensures ParseTraceparent(isPrintable, Some(header), traceState, newSpanId) == Some(read)
       <==> exists trace, span, flags ::
              Spells(header, trace, span, flags)
              && read == Announced(isPrintable, trace, span, flags, traceState, newSpanId)
    ensures ParseTraceparent(isPrintable, Some(header), traceState, newSpanId) == None
       <==> !exists trace, span, flags :: Spells(header, trace, span, flags)
  {
    var stripped := Strip(header);
    var parts := SplitOn('-', stripped);
    if AcceptedFields(parts) {
      JoinSplit('-', stripped);
      LaidOut(stripped, parts);
      assert Spells(header, parts[1], parts[2], parts[3]);
      ReadAsAnnounced(isPrintable, header, traceState, newSpanId);
    }
    forall trace, span, flags | Spells(header, trace, span, flags)
      ensures AcceptedFields(parts) && parts[1] == trace && parts[2] == span && parts[3] == flags
    {
      LayoutIsAccepted(stripped, trace, span, flags);
    }
  }

  lemma ReadAsAnnounced(isPrintable: char -> bool, header: string, traceState: Option<string>, newSpanId: string)
    requires AcceptedFields(SplitOn('-', Strip(header)))
    ensures var parts := SplitOn('-', Strip(header));
            ParseTraceparent(isPrintable, Some(header), traceState, newSpanId)
            == Some(Announced(isPrintable, parts[1], parts[2], parts[3], traceState, newSpanId))
  {
    var flags := SplitOn('-', Strip(header))[3];
    assert flags[0] in flags && flags[1] in flags;
    LowestBit(flags);
  }

  lemma LowestBit(flags: string)
    requires IsHex(flags, 2) && IsHexDigit(flags[0]) && IsHexDigit(flags[1])
    ensures (16 * HexValue(flags[0]) + HexValue(flags[1])) % 2 == 1 <==> SampledFlag(flags)
  {
    assert (16 * HexValue(flags[0]) + HexValue(flags[1])) % 2 == HexValue(flags[1]) % 2;
    var n := flags[1] as int;
    assert if n <= 57 then 48 <= n <= 57 else 97 <= n <= 102;
  }

  lemma LayoutIsAccepted(header: string, trace: string, span: string, flags: string)
    requires Layout(header, trace, span, flags) && AcceptedFields(["00", trace, span, flags])
    ensures var parts := SplitOn('-', header);
            AcceptedFields(parts) && parts[1] == trace && parts[2] == span && parts[3] == flags
  {
    HexHasNoHyphen(trace, 32); HexHasNoHyphen(span, 16); HexHasNoHyphen(flags, 2);
    if header == Header(trace, span, flags) {
      SplitHeader(trace, span, flags);
      SplitUnsplit('-', flags);
    } else {
      var rest :| header == Header(trace, span, flags + ['-'] + rest);
      SplitHeader(trace, span, flags + ['-'] + rest);
      SplitHead('-', flags, rest);
    }
  }

  lemma JoinCons(sep: char, part: string, rest: seq<string>)
    requires rest != []
    ensures Join(sep, [part] + rest) == part + [sep] + Join(sep, rest)
  {
    assert ([part] + rest)[1..] == rest;
  }

  lemma JoinThree(a: string, b: string, c: string, rest: seq<string>)
    requires rest != []
    ensures Join('-', [a, b, c] + rest) == a + ['-'] + (b + ['-'] + (c + ['-'] + Join('-', rest)))
  {
    assert [a, b, c] + rest == [a] + ([b] + ([c] + rest));
    JoinCons('-', a, [b] + ([c] + rest));
    JoinCons('-', b, [c] + rest);
    JoinCons('-', c, rest);
  }

  lemma LaidOut(header: string, parts: seq<string>)
    requires |parts| >= 4 && parts[0] == "00" && header == Join('-', parts)
    ensures Layout(header, parts[1], parts[2], parts[3])
  {
    var rest := parts[3..];
    assert parts == ["00", parts[1], parts[2]] + rest;
    JoinThree("00", parts[1], parts[2], rest);
    assert header == Header(parts[1], parts[2], Join('-', rest));
    if |parts| > 4 {
      assert rest == [parts[3]] + parts[4..];
      JoinCons('-', parts[3], parts[4..]);
    }
  }

  /** Nothing in the text can break a log line. */
  predicate Plain(isPrintable: char -> bool, s: string) {
    forall i | 0 <= i < |s| :: isPrintable(s[i]) && s[i] != '\r' && s[i] != '\n'
  }

  /** An accepted trace state is bounded and plain. */
  lemma CleanStateIsPlain(isPrintable: char -> bool, value: string)
    requires CleanTraceState(isPrintable, Some(value)).Some?
    ensures var state := CleanTraceState(isPrintable, Some(value)).value;
            0 < |state| <= 512 && Plain(isPrintable, state)
  {
    var kept := KeepPrintable(isPrintable, value);
    KeptIsPlain(isPrintable, value);
    var i, j := StripIfIsSlice(IsSpace, kept);
    PlainSlice(isPrintable, kept, i, j);
    PlainSlice(isPrintable, kept[i..j], 0, if j - i <= 512 then j - i else 512);
    assert kept[i..j][0..j - i] == kept[i..j];
  }

  lemma PlainSlice(isPrintable: char -> bool, s: string, i: nat, j: nat)
    requires Plain(isPrintable, s) && i <= j <= |s|
    ensures Plain(isPrintable, s[i..j])
  {
  }

  lemma {:induction false} KeptIsPlain(isPrintable: char -> bool, s: string)
    ensures Plain(isPrintable, KeepPrintable(isPrintable, s))
  {
    if s != [] { KeptIsPlain(isPrintable, s[1..]); }
  }

  lemma {:induction false} KeepConcat(isPrintable: char -> bool, a: string, b: string)
    ensures KeepPrintable(isPrintable, a + b) == KeepPrintable(isPrintable, a) + KeepPrintable(isPrintable, b)
  {
    if a == [] {
      assert a + b == b;
    } else {
      assert (a + b)[1..] == a[1..] + b;
      KeepConcat(isPrintable, a[1..], b);
    }
  }

  /** A character that cannot be printed, or breaks a line, is as if it were not there. */
  lemma UnprintableIgnored(isPrintable: char -> bool, a: string, c: char, b: string)
    requires !isPrintable(c) || c == '\r' || c == '\n'
    ensures a + b != [] ==>
              CleanTraceState(isPrintable, Some(a + [c] + b)) == CleanTraceState(isPrintable, Some(a + b))
  {
    KeepConcat(isPrintable, a + [c], b);
    KeepConcat(isPrintable, a, [c]);
    KeepConcat(isPrintable, a, b);
    assert [c][1..] == [] && KeepPrintable(isPrintable, [c]) == [];
    assert KeepPrintable(isPrintable, a) + [] == KeepPrintable(isPrintable, a);
    assert |a + [c] + b| > 0;
  }

  lemma {:induction false} PlainIsKept(isPrintable: char -> bool, s: string)
    requires Plain(isPrintable, s)
    ensures KeepPrintable(isPrintable, s) == s
  {
    if s != [] { PlainIsKept(isPrintable, s[1..]); }
  }

  /** A plain state is kept, without the whitespace around it, up to 512 characters. */
  lemma PlainStateExactly(isPrintable: char -> bool, value: string)
    requires Plain(isPrintable, value)
    ensures CleanTraceState(isPrintable, Some(value))
         == if Strip(value) == [] then None
            else if |Strip(value)| <= 512 then Some(Strip(value)) else Some(Strip(value)[..512])
  {
    PlainIsKept(isPrintable, value);
  }

  // ----- chains of spans -----

  /** The contexts of spans opened one inside the other, with the identifiers minted for them. */
  function Chain(root: TraceContext, spanIds: seq<string>): seq<TraceContext>
    decreases |spanIds|
  {
    if spanIds == [] then [root]
    else [root] + Chain(root.Child(spanIds[0]), spanIds[1..])
  }

  /** However deep the nesting, every span belongs to the root's trace and carries its sampling
      decision, and each names the one around it as its parent. */
  lemma {:induction false} ChainIsLinked(root: TraceContext, spanIds: seq<string>)
    ensures var chain := Chain(root, spanIds);
            && |chain| == |spanIds| + 1 && chain[0] == root
            && (forall i | 0 <= i < |chain| ::
                  chain[i].traceId == root.traceId && chain[i].sampled == root.sampled
                  && chain[i].traceState == root.traceState)
            && (forall i | 0 < i < |chain| ::
                  chain[i].spanId == spanIds[i - 1] && chain[i].parentSpanId == Some(chain[i - 1].spanId)
                  && !chain[i].remote)
    decreases |spanIds|
  {
    if spanIds != [] {
      ChainIsLinked(root.Child(spanIds[0]), spanIds[1..]);
      var chain, rest := Chain(root, spanIds), Chain(root.Child(spanIds[0]), spanIds[1..]);
      forall i | 0 < i < |chain|
        ensures chain[i].spanId == spanIds[i - 1] && chain[i].parentSpanId == Some(chain[i - 1].spanId)
             && !chain[i].remote
      {
        assert chain[i] == rest[i - 1];
        if i > 1 { assert chain[i - 1] == rest[i - 2] && spanIds[1..][i - 2] == spanIds[i - 1]; }
      }
    }
  }

  // ----- the ambient context -----

  /** What `ContextVar.set` returns: the value to go back to, usable once. */
  class Token {
    const previous: Option<TraceContext>
    var used: bool

    constructor (previous: Option<TraceContext>)
      ensures this.previous == previous && !used
    {
      this.previous := previous;
      used := false;
    }
  }

  /** Work done under a bound context: the blocks inside it one after the other, and possibly an
      exception at its end. */
  datatype Block = Block(context: TraceContext, inner: seq<Block>, raises: bool)

  class Ambient {
    var current: Option<TraceContext>

    constructor ()
      ensures current == None
    {
      current := None;
    }

    method BindTraceContext(context: TraceContext) returns (token: Token)
      modifies this
      ensures current == Some(context)
      ensures fresh(token) && token.previous == old(current) && !token.used
    {
      token := new Token(current);
      current := Some(context);
    }

    /** A token that was already used makes the variable raise, and then nothing is current. */
    method ResetTraceContext(token: Token)
      modifies this, token
      ensures current == if old(token.used) then None else token.previous
      ensures token.used
    {
      if token.used {
        current := None;
      } else {
        token.used := true;
        current := token.previous;
      }
    }

    /** Blocks run one after the other, each resetting its token in a `finally`; an exception ends
        the sequence. However they are nested and wherever one raises, the ambient context
        afterwards is the one before. */
    method RunNested(blocks: seq<Block>) returns (raised: bool)
      modifies this
      ensures current == old(current)
      decreases blocks
    {
      if blocks == [] { return false; }
      var block := blocks[0];
      var token := BindTraceContext(block.context);
      var failed := RunNested(block.inner);
      ResetTraceContext(token);
      if failed || block.raises { return true; }
      raised := RunNested(blocks[1..]);
    }
  }
}
