/** Syntax highlighting (`src/syntax.rs`): the supported languages and their names, the
    table of highlight configurations with its two lookups, and the fold that turns the
    highlighter's event stream into highlighted byte ranges. The tree-sitter parser and
    highlighter themselves are outside the model; their event stream is an input. */
module Syntax {
  import opened Wrappers

  /** `SupportedLanguage`. */
  datatype Language = Rust | Cpp | Python

  /** `SupportedLanguage::to_string`. */
  function Name(l: Language): string {
    match l
    case Rust => "rust"
    case Cpp => "cpp"
    case Python => "python"
  }

  /** The three names are pairwise distinct, so a name picks out one language. */
  lemma NamesDistinct(a: Language, b: Language)
    ensures Name(a) == Name(b) <==> a == b
  {
  }

  /** The capture names every configuration is told to recognise, in order. */
  const HIGHLIGHT_NAMES: seq<string> := [
    "attribute", "constant", "function.builtin", "function", "keyword", "operator",
    "property", "punctuation", "punctuation.bracket", "punctuation.delimiter", "string",
    "string.special", "tag", "type", "type.builtin", "variable", "variable.builtin",
    "variable.parameter"]

  /** What the model keeps of a `HighlightConfiguration`: the language name it was
      built with and the capture names it was configured with. */
  datatype Config = Config(languageName: string, highlightNames: seq<string>)

  /** `to_highlight_config`: the configuration is built under the same name that
      `to_string` gives the language. */
  function ToHighlightConfig(l: Language): (c: Config)
    ensures c.languageName == Name(l) && c.highlightNames == HIGHLIGHT_NAMES
  {
    match l
    case Rust => Config("rust", HIGHLIGHT_NAMES)
    case Cpp => Config("cpp", HIGHLIGHT_NAMES)
    case Python => Config("python", HIGHLIGHT_NAMES)
  }

  /** The `configs` table `Syntax::new` builds: one entry per language, in the order
      Rust, C++, Python. */
  function Configs(): seq<(Language, Config)> {
    [(Rust, ToHighlightConfig(Rust)), (Cpp, ToHighlightConfig(Cpp)), (Python, ToHighlightConfig(Python))]
  }

  /** `configs.iter().find(|(l, _)| *l == lang).map(|(_, c)| c)`: the configuration of
      the first entry for the language. */
  function FindByLanguage(configs: seq<(Language, Config)>, lang: Language): (r: Option<Config>)
    ensures r.Some? <==> exists i :: 0 <= i < |configs| && configs[i].0 == lang
    ensures r.Some? ==>
      exists i :: 0 <= i < |configs| && configs[i].0 == lang && r.value == configs[i].1 &&
        (forall j :: 0 <= j < i ==> configs[j].0 != lang)
  {
    if configs == [] then None
    else if configs[0].0 == lang then Some(configs[0].1)
    else
      var r := FindByLanguage(configs[1..], lang);
      assert forall i :: 1 <= i < |configs| ==> configs[i] == configs[1..][i - 1];
      r
  }

  /** The injection callback: the configuration of the first entry whose language's
      name is the requested one. */
  function FindByName(configs: seq<(Language, Config)>, name: string): (r: Option<Config>)
    ensures r.Some? <==> exists i :: 0 <= i < |configs| && Name(configs[i].0) == name
    ensures r.Some? ==>
      exists i :: 0 <= i < |configs| && Name(configs[i].0) == name && r.value == configs[i].1 &&
        (forall j :: 0 <= j < i ==> Name(configs[j].0) != name)
  {
    if configs == [] then None
    else if Name(configs[0].0) == name then Some(configs[0].1)
    else
      var r := FindByName(configs[1..], name);
      assert forall i :: 1 <= i < |configs| ==> configs[i] == configs[1..][i - 1];
      r
  }

  /** The table covers every language, so the lookup in `highlight` never fails, and it
      gives that language's own configuration. */
  lemma LookupAlwaysSucceeds(l: Language)
    ensures FindByLanguage(Configs(), l) == Some(ToHighlightConfig(l))
  {
    var cs := Configs();
    var i := match l case Rust => 0 case Cpp => 1 case Python => 2;
    assert cs[i].0 == l;
  }

  /** An injection lookup succeeds exactly for the three language names, and the
      configuration it returns was built under the requested name. */
  lemma InjectionLookup(name: string)
    ensures FindByName(Configs(), name).Some? <==> name == "rust" || name == "cpp" || name == "python"
    ensures FindByName(Configs(), name).Some? ==> FindByName(Configs(), name).value.languageName == name
  {
    var cs := Configs();
    assert Name(cs[0].0) == "rust" && Name(cs[1].0) == "cpp" && Name(cs[2].0) == "python";
  }

  /** Asking for a language's own name as an injection gives back its configuration. */
  lemma InjectionOwnName(l: Language)
    ensures FindByName(Configs(), ToHighlightConfig(l).languageName) == Some(ToHighlightConfig(l))
  {
    var cs := Configs();
    var i := match l case Rust => 0 case Cpp => 1 case Python => 2;
    assert Name(cs[i].0) == Name(l);
  }

  // ---------------------------------------------------------------------------
  // The highlight event fold

  /** `tree_sitter_highlight::Highlight`, an index into the capture names. */
  datatype Highlight = Highlight(index: nat)

  /** `HighlightEvent`. */
  datatype Event =
    | Source(start: nat, end: nat)
    | HighlightStart(h: Highlight)
    | HighlightEnd

  /** One item of the iterator `highlight` returns: `start..end` and its highlight. */
  datatype Span = Span(start: nat, end: nat, highlight: Highlight)

  /** What an event does to the stack: a start pushes, an end pops (and popping an
      empty stack leaves it empty), a source leaves it alone. */
  function Apply(stack: seq<Highlight>, e: Event): (r: seq<Highlight>)
    ensures e.HighlightStart? ==> r == stack + [e.h]
    ensures e.HighlightEnd? ==> r == if stack == [] then [] else stack[..|stack| - 1]
    ensures e.Source? ==> r == stack
  {
    match e
    case Source(_, _) => stack
    case HighlightStart(h) => stack + [h]
    case HighlightEnd => if stack == [] then [] else stack[..|stack| - 1]
  }

  /** The stack after a run of events, starting empty. */
  function StackAfter(es: seq<Event>): seq<Highlight> {
    if es == [] then [] else Apply(StackAfter(es[..|es| - 1]), es[|es| - 1])
  }

  /** A start immediately closed by an end leaves the stack as it was, whatever was
      open before: the pop removes exactly what the push added. */
  lemma StartEndCancel(before: seq<Event>, h: Highlight)
    ensures StackAfter(before + [HighlightStart(h), HighlightEnd]) == StackAfter(before)
  {
    var es := before + [HighlightStart(h), HighlightEnd];
    assert es[..|es| - 1] == before + [HighlightStart(h)];
    assert (before + [HighlightStart(h)])[..|before|] == before;
    var pushed := StackAfter(before) + [h];
    assert pushed[..|pushed| - 1] == StackAfter(before);
  }

  /** `highlight_stack.last().copied().unwrap_or(Highlight(0))`. */
  function Top(stack: seq<Highlight>): Highlight {
    if stack == [] then Highlight(0) else stack[|stack| - 1]
  }

  /** What an event emits: a source its range under the current top highlight, the
      other events nothing. */
  function Emit(stack: seq<Highlight>, e: Event): seq<Span> {
    match e
    case Source(start, end) => [Span(start, end, Top(stack))]
    case _ => []
  }

  /** The spans the iterator yields for a run of events. */
  function Spans(es: seq<Event>): seq<Span> {
    if es == [] then [] else Spans(es[..|es| - 1]) + Emit(StackAfter(es[..|es| - 1]), es[|es| - 1])
  }

  /** The `filter_map` closure of `highlight` run over the whole event stream, with
      `highlight_stack` carried from one event to the next. */
  method HighlightSpans(events: seq<Event>) returns (spans: seq<Span>)
    ensures spans == Spans(events)
  {
    var stack: seq<Highlight> := [];
    spans := [];
    for i := 0 to |events|
      invariant stack == StackAfter(events[..i])
      invariant spans == Spans(events[..i])
    {
      assert events[..i + 1][..i] == events[..i];
      match events[i]
      case Source(start, end) =>
        var top := if stack == [] then Highlight(0) else stack[|stack| - 1];
        spans := spans + [Span(start, end, top)];
      case HighlightStart(h) =>
        stack := stack + [h];
      case HighlightEnd =>
        if stack != [] {
          stack := stack[..|stack| - 1];
        }
    }
    assert events[..|events|] == events;
  }

  /** The ranges of the source events, in order. */
  function SourceRanges(es: seq<Event>): seq<(nat, nat)> {
    if es == [] then []
    else SourceRanges(es[..|es| - 1]) + (if es[|es| - 1].Source? then [(es[|es| - 1].start, es[|es| - 1].end)] else [])
  }

  function Ranges(spans: seq<Span>): seq<(nat, nat)> {
    if spans == [] then [] else Ranges(spans[..|spans| - 1]) + [(spans[|spans| - 1].start, spans[|spans| - 1].end)]
  }

  lemma {:induction false} RangesAppend(a: seq<Span>, b: seq<Span>)
    ensures Ranges(a + b) == Ranges(a) + Ranges(b)
    decreases |b|
  {
    if b == [] {
      assert a + b == a;
    } else {
      assert (a + b)[..|a + b| - 1] == a + b[..|b| - 1];
      RangesAppend(a, b[..|b| - 1]);
    }
  }

  /** Exactly one span per source event, in the order of the events, each with that
      event's range. */
  lemma {:induction false} SpansFollowSources(es: seq<Event>)
    ensures Ranges(Spans(es)) == SourceRanges(es)
    decreases |es|
  {
    if es != [] {
      var p := es[..|es| - 1];
      SpansFollowSources(p);
      RangesAppend(Spans(p), Emit(StackAfter(p), es[|es| - 1]));
      if es[|es| - 1].Source? {
        assert Ranges([Span(es[|es| - 1].start, es[|es| - 1].end, Top(StackAfter(p)))]) == [(es[|es| - 1].start, es[|es| - 1].end)];
      }
    }
  }

  /** Earlier spans are never revised: the spans of a run of events begin with the
      spans of any prefix of it. */
  lemma {:induction false} SpansPrefix(es: seq<Event>, more: seq<Event>)
    ensures |Spans(es)| <= |Spans(es + more)| && Spans(es + more)[..|Spans(es)|] == Spans(es)
    decreases |more|
  {
    if more == [] {
      assert es + more == es;
    } else {
      var all := es + more;
      assert all[..|all| - 1] == es + more[..|more| - 1];
      SpansPrefix(es, more[..|more| - 1]);
    }
  }

  /** A source event is emitted with the highlight on top of the stack the events
      before it left, or `Highlight(0)` when that stack is empty. */
  lemma SourceHighlight(before: seq<Event>, start: nat, end: nat, after: seq<Event>)
    ensures var all := before + [Source(start, end)] + after;
      |Spans(before)| < |Spans(all)| &&
      Spans(all)[|Spans(before)|] == Span(start, end, Top(StackAfter(before)))
  {
    var here := before + [Source(start, end)];
    assert here[..|here| - 1] == before && here[|here| - 1] == Source(start, end);
    assert Spans(here) == Spans(before) + [Span(start, end, Top(StackAfter(before)))];
    SpansPrefix(here, after);
    var all := here + after;
    assert Spans(all)[|Spans(before)|] == Spans(all)[..|Spans(here)|][|Spans(before)|];
  }

  /** The number of starts minus the number of ends. */
  function Depth(es: seq<Event>): int {
    if es == [] then 0
    else Depth(es[..|es| - 1]) + (match es[|es| - 1] case HighlightStart(_) => 1 case HighlightEnd => -1 case Source(_, _) => 0)
  }

  /** No prefix closes more highlights than it opened. */
  predicate NoUnderflow(es: seq<Event>) {
    forall k :: 0 <= k <= |es| ==> Depth(es[..k]) >= 0
  }

  /** Events that never close more than they opened act on top of whatever stack they
      meet: they leave it below what they would build from an empty stack. */
  lemma {:induction false} StackRelative(before: seq<Event>, es: seq<Event>)
    requires NoUnderflow(es)
    ensures StackAfter(before + es) == StackAfter(before) + StackAfter(es)
    ensures |StackAfter(es)| == Depth(es)
    decreases |es|
  {
    if es == [] {
      assert before + es == before;
    } else {
      var p := es[..|es| - 1];
      assert NoUnderflow(p) by {
        forall k | 0 <= k <= |p| ensures Depth(p[..k]) >= 0 {
          assert p[..k] == es[..k];
        }
      }
      StackRelative(before, p);
      assert (before + es)[..|before + es| - 1] == before + p;
      assert es[..|es|] == es;
    }
  }

  /** A well-nested group of events (as many ends as starts, never more ends than
      starts so far) leaves the enclosing stack as it found it. */
  lemma BalancedRestores(before: seq<Event>, group: seq<Event>)
    requires NoUnderflow(group) && Depth(group) == 0
    ensures StackAfter(before + group) == StackAfter(before)
  {
    StackRelative(before, group);
  }

  /** A source event inside `HighlightStart(h)`, after a well-nested group, is drawn
      with `h`: the innermost open highlight wins. */
  lemma InnermostWins(before: seq<Event>, h: Highlight, group: seq<Event>, start: nat, end: nat, after: seq<Event>)
    requires NoUnderflow(group) && Depth(group) == 0
    ensures var inside := before + [HighlightStart(h)] + group;
      |Spans(inside)| < |Spans(inside + [Source(start, end)] + after)| &&
      Spans(inside + [Source(start, end)] + after)[|Spans(inside)|] == Span(start, end, h)
  {
    var opening := before + [HighlightStart(h)];
    assert opening[..|opening| - 1] == before;
    BalancedRestores(opening, group);
    SourceHighlight(opening + group, start, end, after);
  }

  /** With no highlight open, a source event is drawn with `Highlight(0)`, however many
      ends came before: extra ends are ignored. */
  lemma UnopenedIsDefault(ends: nat, start: nat, end: nat, after: seq<Event>)
    ensures var before := seq(ends, _ => HighlightEnd);
      |Spans(before)| < |Spans(before + [Source(start, end)] + after)| &&
      Spans(before + [Source(start, end)] + after)[|Spans(before)|] == Span(start, end, Highlight(0))
  {
    var before := seq(ends, _ => HighlightEnd);
    EndsLeaveEmpty(ends);
    SourceHighlight(before, start, end, after);
  }

  lemma {:induction false} EndsLeaveEmpty(n: nat)
    ensures StackAfter(seq(n, _ => HighlightEnd)) == []
  {
    if n > 0 {
      var es := seq(n, _ => HighlightEnd);
      assert es[..n - 1] == seq(n - 1, _ => HighlightEnd);
      EndsLeaveEmpty(n - 1);
    }
  }
}
