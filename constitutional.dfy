/** constitutional_ai.py: the breath gate. A text is tokenized, checked for admissibility
    against the current recursion depth, reduced to at most one noun and one verb, and emitted
    (or collapsed), after which the depth returns to 0 once it reaches 3. */
module Constitutional {
  import opened Wrappers
  import opened Text

  /** `max_recursion`, the ZCR limit. */
  const MaxRecursion: nat := 3

  // ---------------------------------------------------------------------------------------
  // Tokens

  /** `\w` for ASCII text: a letter, a digit or `_`. */
  predicate IsWordChar(c: char)
  {
    'a' <= c <= 'z' || 'A' <= c <= 'Z' || '0' <= c <= '9' || c == '_'
  }

  /** The length of the run of word characters at the head of `s`. */
  function RunLength(s: string): (n: nat)
    ensures n <= |s|
    ensures forall i :: 0 <= i < n ==> IsWordChar(s[i])
    ensures n < |s| ==> !IsWordChar(s[n])
  {
    if s == [] || !IsWordChar(s[0]) then 0 else 1 + RunLength(s[1..])
  }

  /** A token as `\b\w+\b` matches one: a non-empty run of word characters. */
  predicate IsWord(w: string)
  {
    |w| > 0 && forall i :: 0 <= i < |w| ==> IsWordChar(w[i])
  }

  /** `re.findall(r'\b\w+\b', s)`: the maximal runs of word characters, left to right. */
  function Words(s: string): (ws: seq<string>)
    ensures forall k :: 0 <= k < |ws| ==> IsWord(ws[k])
    decreases |s|
  {
    if s == [] then []
    else if !IsWordChar(s[0]) then Words(s[1..])
    else
      var n := RunLength(s);
      [s[..n]] + Words(s[n..])
  }

  /** `tokenize(text)`: the words of the lower-cased text. */
  function Tokenize(text: string): (tokens: seq<string>)
    ensures forall k :: 0 <= k < |tokens| ==> IsWord(tokens[k]) && IsLowerCase(tokens[k])
  {
    var lowered := Lower(text);
    var ws := Words(lowered);
    WordsAreSlices(lowered);
    ws
  }

  lemma {:induction false} WordsAreSlices(s: string)
    requires IsLowerCase(s)
    ensures forall k :: 0 <= k < |Words(s)| ==> IsLowerCase(Words(s)[k])
    decreases |s|
  {
    if s != [] {
      if !IsWordChar(s[0]) {
        WordsAreSlices(s[1..]);
      } else {
        var n := RunLength(s);
        WordsAreSlices(s[n..]);
      }
    }
  }

  /** A text has no tokens exactly when it holds no word character. */
  lemma {:induction false} WordsEmptyIff(s: string)
    ensures Words(s) == [] <==> forall i :: 0 <= i < |s| ==> !IsWordChar(s[i])
    decreases |s|
  {
    if s != [] && !IsWordChar(s[0]) {
      WordsEmptyIff(s[1..]);
      assert forall i :: 1 <= i < |s| ==> s[i] == s[1..][i - 1];
    }
  }

  lemma TokenizeEmptyIff(text: string)
    ensures Tokenize(text) == [] <==> forall i :: 0 <= i < |text| ==> !IsWordChar(text[i])
  {
    WordsEmptyIff(Lower(text));
    assert forall i :: 0 <= i < |text| ==> (IsWordChar(Lower(text)[i]) <==> IsWordChar(text[i]));
  }

  /** Lower-case words written out with single spaces tokenize back to themselves. */
  lemma {:induction false} TokenizeJoined(ws: seq<string>)
    requires forall k :: 0 <= k < |ws| ==> IsWord(ws[k]) && IsLowerCase(ws[k])
    ensures Tokenize(Join(ws, " ")) == ws
  {
    JoinedIsLowerCase(ws);
    LowerOfLowerCase(Join(ws, " "));
    WordsOfJoined(ws);
  }

  lemma {:induction false} JoinedIsLowerCase(ws: seq<string>)
    requires forall k :: 0 <= k < |ws| ==> IsLowerCase(ws[k])
    ensures IsLowerCase(Join(ws, " "))
  {
    if |ws| > 1 {
      JoinedIsLowerCase(ws[1..]);
    }
  }

  lemma {:induction false} WordsOfJoined(ws: seq<string>)
    requires forall k :: 0 <= k < |ws| ==> IsWord(ws[k])
    ensures Words(Join(ws, " ")) == ws
  {
    if |ws| == 1 {
      WordAlone(ws[0]);
    } else if |ws| > 1 {
      WordThenSpace(ws[0], Join(ws[1..], " "));
      WordsOfJoined(ws[1..]);
      assert ws == [ws[0]] + ws[1..];
    }
  }

  /** A word, a space and more text: the word is the first token and the rest follow. */
  lemma WordThenSpace(w: string, rest: string)
    requires IsWord(w)
    ensures Words(w + " " + rest) == [w] + Words(rest)
  {
    var s := w + " " + rest;
    WordRun(w, " " + rest);
    assert s == w + (" " + rest);
    assert s[..|w|] == w;
    assert s[|w|..] == " " + rest;
    assert (" " + rest)[1..] == rest;
  }

  /** A word followed by a non-word character is read as one run. */
  lemma {:induction false} WordRun(w: string, t: string)
    requires IsWord(w) && |t| > 0 && !IsWordChar(t[0])
    ensures RunLength(w + t) == |w|
    decreases |w|
  {
    if |w| > 1 {
      assert (w + t)[1..] == w[1..] + t;
      WordRun(w[1..], t);
    } else {
      assert (w + t)[1..] == t;
    }
  }

  lemma {:induction false} WordAlone(w: string)
    requires IsWord(w)
    ensures Words(w) == [w]
  {
    WordLength(w);
    assert w[..|w|] == w && w[|w|..] == [];
  }

  lemma {:induction false} WordLength(w: string)
    requires forall i :: 0 <= i < |w| ==> IsWordChar(w[i])
    ensures RunLength(w) == |w|
    decreases |w|
  {
    if |w| > 0 {
      WordLength(w[1..]);
    }
  }

  // ---------------------------------------------------------------------------------------
  // Word classes

  /** The ten words `is_noun` excludes. */
  function NotNouns(): seq<string>
  {
    ["is", "are", "was", "were", "be", "been", "run", "jump", "eat", "sleep"]
  }

  /** The twelve words `is_verb` accepts: the ten above and "runs", "jumps". */
  function VerbWords(): seq<string>
  {
    NotNouns() + ["runs", "jumps"]
  }

  /** `is_noun(token)`. */
  predicate IsNoun(token: string)
  {
    Lower(token) !in NotNouns()
  }

  /** `is_verb(token)`. */
  predicate IsVerb(token: string)
  {
    Lower(token) in VerbWords()
  }

  /** Every token is a noun or a verb, so the `other` set of `nand_tokens` stays empty. */
  lemma NounOrVerb(token: string)
    ensures IsNoun(token) || IsVerb(token)
  {
    if !IsNoun(token) {
      assert Lower(token) in VerbWords();
    }
  }

  /** "runs" and "jumps" are nouns: the noun test comes first, and it does not exclude them. */
  lemma RunsIsNoun()
    ensures IsNoun("runs") && IsNoun("jumps")
  {
    assert Lower("runs") == "runs";
    assert Lower("jumps") == "jumps";
  }

  /** The tokens `nand_tokens` files as nouns. */
  function Nouns(tokens: seq<string>): set<string>
  {
    set t | t in tokens && IsNoun(t)
  }

  /** The tokens it files as verbs: not nouns, and verbs. */
  function Verbs(tokens: seq<string>): set<string>
  {
    set t | t in tokens && !IsNoun(t) && IsVerb(t)
  }

  /** `r` keeps at most one shortest member of the class `c`: none when `c` is empty. */
  ghost predicate KeepsShortest(r: set<string>, c: set<string>)
  {
    if c == {} then r * c == {} else exists m :: IsShortest(m, c) && r * c == {m}
  }

  /** What `nand_tokens(tokens)` may return. Up to one token it is the set of the tokens;
      otherwise one shortest noun (if any) and one shortest verb (if any), and nothing else.
      Which shortest one `min(..., key=len)` picks depends on set iteration order. */
  ghost predicate NandReduced(tokens: seq<string>, r: set<string>)
  {
    if |tokens| <= 1 then r == set t | t in tokens
    else r <= Nouns(tokens) + Verbs(tokens) && KeepsShortest(r, Nouns(tokens)) && KeepsShortest(r, Verbs(tokens))
  }

  /** `nand_tokens(tokens)`. */
  method NandTokens(tokens: seq<string>) returns (r: set<string>)
    ensures NandReduced(tokens, r)
    ensures r <= set t | t in tokens
    ensures |r| <= 2
  {
    if |tokens| <= 1 {
      r := set t | t in tokens;
      if |tokens| == 1 {
        assert r == {tokens[0]};
      }
      return;
    }
    var nouns, verbs := Classify(tokens);
    var keptVerbs := KeepShortest(verbs);
    var keptNouns := KeepShortest(nouns);
    r := keptNouns + keptVerbs;
    Assemble(tokens, nouns, verbs, keptNouns, keptVerbs);
  }

  /** The two kept classes together are a reduction of the tokens. */
  lemma Assemble(tokens: seq<string>, nouns: set<string>, verbs: set<string>, kn: set<string>, kv: set<string>)
    requires |tokens| > 1 && nouns == Nouns(tokens) && verbs == Verbs(tokens)
    requires kn <= nouns && |kn| <= 1 && KeepsShortest(kn, nouns)
    requires kv <= verbs && |kv| <= 1 && KeepsShortest(kv, verbs)
    ensures NandReduced(tokens, kn + kv)
    ensures kn + kv <= set t | t in tokens
    ensures |kn + kv| <= 2
  {
    var r := kn + kv;
    assert nouns * verbs == {};
    SplitClasses(nouns, verbs, kn, kv);
    SubsetSize(r, kn, kv);
  }

  lemma SplitClasses(nouns: set<string>, verbs: set<string>, kn: set<string>, kv: set<string>)
    requires nouns * verbs == {} && kn <= nouns && kv <= verbs
    requires KeepsShortest(kn, nouns) && KeepsShortest(kv, verbs)
    ensures KeepsShortest(kn + kv, nouns) && KeepsShortest(kn + kv, verbs)
  {
    assert (kn + kv) * nouns == kn * nouns;
    assert (kn + kv) * verbs == kv * verbs;
  }

  /** The loop of `nand_tokens`: each token goes to the nouns, else to the verbs, else to
      `other`, which stays empty (NounOrVerb) and is not returned. */
  method Classify(tokens: seq<string>) returns (nouns: set<string>, verbs: set<string>)
    ensures nouns == Nouns(tokens) && verbs == Verbs(tokens)
  {
    nouns, verbs := {}, {};
    var other: set<string> := {};
    for i := 0 to |tokens|
      invariant forall t :: t in nouns <==> t in tokens[..i] && IsNoun(t)
      invariant forall t :: t in verbs <==> t in tokens[..i] && !IsNoun(t) && IsVerb(t)
    {
      var token := tokens[i];
      assert tokens[..i + 1] == tokens[..i] + [token];
      if IsNoun(token) {
        nouns := nouns + {token};
      } else if IsVerb(token) {
        verbs := verbs + {token};
      } else {
        other := other + {token};
      }
    }
    assert tokens[..|tokens|] == tokens;
  }

  /** `if len(c) > 1: c = {min(c, key=len)}`. */
  method KeepShortest(c: set<string>) returns (kept: set<string>)
    ensures kept <= c && |kept| <= 1 && KeepsShortest(kept, c)
  {
    kept := c;
    if |c| > 1 {
      ShortestExists(c);
      var m :| IsShortest(m, c);
      kept := {m};
    } else if |c| == 1 {
      var m :| m in c;
      assert |c - {m}| == 0;
      assert c == {m};
      assert IsShortest(m, c);
    }
  }

  lemma SubsetSize(r: set<string>, a: set<string>, b: set<string>)
    requires r == a + b && |a| <= 1 && |b| <= 1
    ensures |r| <= 2
  {
    assert |a + b| <= |a| + |b|;
  }

  // ---------------------------------------------------------------------------------------
  // Metrics

  datatype Load = Low | Medium | High
  datatype Boundary = Stable | Fluid | Unstable
  datatype RecursionLevel = NoRecursion | SomeRecursion | DeepRecursion
  datatype Horizon = Strong | Weak | Violated

  /** The dictionary `calculate_metrics` returns; TORQUE is 'present' when `torque` holds and
      COLLAPSE is 'high' when `collapse` holds. */
  datatype Metrics = Metrics(load: Load, boundary: Boundary, recursion: RecursionLevel,
                             escalationScore: nat, horizon: Horizon, torque: bool, collapse: bool)

  /** The load tier of a context size. */
  function LoadOf(contextSize: nat): (l: Load)
    ensures l == Low <==> contextSize < 100
    ensures l == High <==> contextSize >= 1000
  {
    if contextSize < 100 then Low else if contextSize < 1000 then Medium else High
  }

  /** The load's share of the escalation score. */
  function LoadScore(l: Load): nat
  {
    match l
    case Low => 0
    case Medium => 3
    case High => 5
  }

  /** `load_map[load]` (0.5, 1.0, 1.5), counted in halves. */
  function LoadHalves(l: Load): nat
  {
    match l
    case Low => 1
    case Medium => 2
    case High => 3
  }

  /** `str(tokens)`: Python's listing of a list of strings. The tokens are word characters
      only, so each is shown between single quotes with nothing escaped. */
  function ListRepr(tokens: seq<string>): string
  {
    "[" + QuotedList(tokens) + "]"
  }

  function QuotedList(tokens: seq<string>): string
  {
    if tokens == [] then ""
    else if |tokens| == 1 then "'" + tokens[0] + "'"
    else "'" + tokens[0] + "', " + QuotedList(tokens[1..])
  }

  /** Every token appears inside the listing. */
  lemma {:induction false} TokenInListing(tokens: seq<string>, t: string)
    requires t in tokens
    ensures Contains(ListRepr(tokens), t)
  {
    QuotedListHolds(tokens, t);
    ContainsRight("[", QuotedList(tokens), t);
    ContainsLeft("[" + QuotedList(tokens), "]", t);
  }

  lemma {:induction false} QuotedListHolds(tokens: seq<string>, t: string)
    requires t in tokens
    ensures Contains(QuotedList(tokens), t)
  {
    ContainsSelf(t);
    if |tokens| == 1 {
      ContainsRight("'", t, t);
      ContainsLeft("'" + t, "'", t);
    } else if tokens[0] == t {
      ContainsRight("'", t, t);
      ContainsLeft("'" + t, "', " + QuotedList(tokens[1..]), t);
      assert "'" + t + "', " + QuotedList(tokens[1..]) == ("'" + t) + ("', " + QuotedList(tokens[1..]));
    } else {
      QuotedListHolds(tokens[1..], t);
      ContainsRight("'" + tokens[0] + "', ", QuotedList(tokens[1..]), t);
    }
  }

  /** `contradicts(new_token, existing_fact)`: a stub that never finds a contradiction. */
  predicate Contradicts(token: string, fact: string)
  {
    false
  }

  /** `detects_contradiction(state)`: Stone's Law. The listing of the tokens mentions both
      "divide" and "cancel", or a token contradicts a committed fact. */
  predicate DetectsContradiction(tokens: seq<string>, facts: set<string>)
  {
    var listing := ListRepr(tokens);
    (Contains(listing, "divide") && Contains(listing, "cancel")) ||
    exists i, f :: 0 <= i < |tokens| && f in facts && Contradicts(tokens[i], f)
  }

  /** `calculate_metrics(state)`, with the depth the engine is at. */
  function CalculateMetrics(depth: nat, facts: set<string>, tokens: seq<string>, contextSize: nat): (m: Metrics)
    ensures m.load == LoadOf(contextSize)
    ensures m.horizon == Violated <==> DetectsContradiction(tokens, facts)
    ensures !DetectsContradiction(tokens, facts) ==> (m.horizon == Weak <==> m.boundary == Unstable)
    ensures m.collapse <==> m.boundary == Unstable
    ensures m.torque <==> m.boundary != Stable
    ensures m.boundary == Stable <==> m.recursion == NoRecursion
    ensures 2 * depth <= m.escalationScore <= 2 * depth + 7
  {
    var load := LoadOf(contextSize);
    var boundary := if depth == 0 then Stable else if depth < MaxRecursion then Fluid else Unstable;
    var recursion := if depth == 0 then NoRecursion else if depth < 2 then SomeRecursion else DeepRecursion;
    var score := LoadScore(load) + depth * 2 + (if |tokens| > 10 then 2 else 0);
    var horizon :=
      if DetectsContradiction(tokens, facts) then Violated
      else if depth >= MaxRecursion then Weak
      else Strong;
    Metrics(load, boundary, recursion, score, horizon, depth > 0, depth >= MaxRecursion)
  }

  /** The escalation score never falls when the context, the depth or the token count grows. */
  lemma ScoreMonotone(d1: nat, d2: nat, f: set<string>, t1: seq<string>, t2: seq<string>, c1: nat, c2: nat)
    requires d1 <= d2 && |t1| <= |t2| && c1 <= c2
    ensures CalculateMetrics(d1, f, t1, c1).escalationScore <= CalculateMetrics(d2, f, t2, c2).escalationScore
  {
  }

  // ---------------------------------------------------------------------------------------
  // The admissibility gate

  datatype Viability = Viable | Halt | Collapse | Wait

  datatype Verdict = Verdict(viability: Viability, reason: string)

  const StoneReason: string := "Stone's Law violation: 0=1 detected"
  const HorizonReason: string := "Horizon integrity violated"
  const T1Reason: string := "T=1 violation: No unpaired remainder"

  /** A value counted in hundredths, as `f"{x:.2f}"` writes it. */
  function Hundredths(c: nat): string
  {
    NatToString(c / 100) + "." + [DigitChar(c % 100 / 10), DigitChar(c % 10)]
  }

  /** `can_preserve_t1(state)`: both branches after the empty check answer True. */
  function CanPreserveT1(tokens: seq<string>, unpaired: Option<string>): (ok: bool)
    ensures ok <==> |tokens| > 0
  {
    if |tokens| == 0 then false
    else if unpaired.Some? then true
    else true
  }

  /** The stress `load_value * depth` exceeds the threshold 2.0; both sides in halves. */
  predicate Stressed(l: Load, depth: nat)
  {
    LoadHalves(l) * depth > 4
  }

  /** `check_admissibility(state)`. The loop over the laws database only compares scores and
      decides nothing. WAIT is never returned. */
  function CheckAdmissibility(depth: nat, unpaired: Option<string>, facts: set<string>,
                              tokens: seq<string>, contextSize: nat): (v: Verdict)
    ensures v.viability != Wait
    ensures v.viability == Collapse <==> !DetectsContradiction(tokens, facts) && depth >= MaxRecursion
    ensures v.viability == Viable <==>
      !DetectsContradiction(tokens, facts) && depth < MaxRecursion &&
      !(LoadOf(contextSize) == High && depth == 2) && |tokens| > 0
    ensures v.viability == Viable ==> v.reason == "Admitted"
  {
    var m := CalculateMetrics(depth, facts, tokens, contextSize);
    if DetectsContradiction(tokens, facts) then Verdict(Halt, StoneReason)
    else if m.horizon == Violated then Verdict(Halt, HorizonReason)
    else if depth >= MaxRecursion then
      // The literal in the source holds "â‰¥", a UTF-8 "≥" misread as Windows-1252, and the
      // program emits exactly those three characters.
      Verdict(Collapse, "Recursion depth " + NatToString(depth) + " â‰¥ " + NatToString(MaxRecursion) + ": Force collapse")
    else if Stressed(m.load, depth) then
      StressBelowCollapse(m.load, depth);
      Verdict(Halt, "Stress " + Hundredths(LoadHalves(m.load) * depth * 50) + " > threshold 2.0")
    else if !CanPreserveT1(tokens, unpaired) then Verdict(Halt, T1Reason)
    else Verdict(Viable, "Admitted")
  }

  /** Below the ZCR limit only a high load at depth 2 is over the stress threshold. */
  lemma StressBelowCollapse(l: Load, depth: nat)
    requires depth < MaxRecursion
    ensures Stressed(l, depth) <==> l == High && depth == 2
  {
  }

  /** Stone's Law: tokens holding both "divide" and "cancel" are halted first. */
  lemma StoneLawHalts(depth: nat, unpaired: Option<string>, facts: set<string>, tokens: seq<string>, contextSize: nat)
    requires "divide" in tokens && "cancel" in tokens
    ensures CheckAdmissibility(depth, unpaired, facts, tokens, contextSize) == Verdict(Halt, StoneReason)
  {
    TokenInListing(tokens, "divide");
    TokenInListing(tokens, "cancel");
  }

  /** Without tokens, below the ZCR limit and off the stress threshold, the T=1 check halts. */
  lemma NoTokensHalt(depth: nat, unpaired: Option<string>, facts: set<string>, contextSize: nat)
    requires depth < MaxRecursion && !(LoadOf(contextSize) == High && depth == 2)
    ensures CheckAdmissibility(depth, unpaired, facts, [], contextSize) == Verdict(Halt, T1Reason)
  {
    assert !Contains(ListRepr([]), "divide");
    StressBelowCollapse(LoadOf(contextSize), depth);
  }

  /** The horizon check never decides: a violated horizon is a contradiction, halted before. */
  lemma HorizonNeverDecides(depth: nat, unpaired: Option<string>, facts: set<string>, tokens: seq<string>, contextSize: nat)
    ensures CheckAdmissibility(depth, unpaired, facts, tokens, contextSize).reason != HorizonReason
  {
    StressReasonDiffers(LoadHalves(LoadOf(contextSize)) * depth * 50);
    CollapseReasonDiffers(depth);
  }

  lemma CollapseReasonDiffers(depth: nat)
    ensures ("Recursion depth " + NatToString(depth) + " â‰¥ " + NatToString(MaxRecursion) + ": Force collapse")[0] != HorizonReason[0]
  {
  }

  lemma StressReasonDiffers(c: nat)
    ensures ("Stress " + Hundredths(c) + " > threshold 2.0")[0] != HorizonReason[0]
  {
  }

  // ---------------------------------------------------------------------------------------
  // Output

  /** `emit(tokens)`: "<silence>" for nothing, else the tokens in sorted order after "entities: ". */
  function Emit(tokens: set<string>): (s: string)
    ensures tokens == {} ==> s == "<silence>"
  {
    if tokens == {} then "<silence>" else "entities: " + Join(SortedList(tokens), ", ")
  }

  /** The emitted listing is the increasing listing of the tokens, whichever way it is found. */
  lemma EmitListsSorted(tokens: set<string>, xs: seq<string>)
    requires tokens != {} && StrictlySorted(xs) && forall t :: t in tokens <==> t in xs
    ensures Emit(tokens) == "entities: " + Join(xs, ", ")
  {
    SortedListUnique(SortedList(tokens), xs);
  }

  lemma EmitSingle(t: string)
    ensures Emit({t}) == "entities: " + t
  {
    EmitListsSorted({t}, [t]);
  }

  /** What `collapse_to_viable(tokens)` may answer: "<silence>", or "T=1: " and a shortest token. */
  ghost predicate CollapsedTo(tokens: set<string>, output: string)
  {
    if tokens == {} then output == "<silence>" else exists m :: IsShortest(m, tokens) && output == "T=1: " + m
  }

  // ---------------------------------------------------------------------------------------
  // The engine

  /** `ConstitutionalAI`. The laws database is only read by the no-op loop and is left out. */
  class ConstitutionalAI {
    var recursionDepth: nat
    var unpairedBit: Option<string>
    var inBreath: bool
    var committedFacts: set<string>

    /** The ZCR invariant: the depth stays below the limit. */
    predicate Valid()
      reads this
    {
      recursionDepth < MaxRecursion
    }

    constructor ()
      ensures Valid()
      ensures recursionDepth == 0 && unpairedBit == None && !inBreath && committedFacts == {}
    {
      recursionDepth, unpairedBit, inBreath, committedFacts := 0, None, false, {};
    }

    /** `check_admissibility` on the engine's own state. */
    function Admissibility(tokens: seq<string>, contextSize: nat): Verdict
      reads this
    {
      CheckAdmissibility(recursionDepth, unpairedBit, committedFacts, tokens, contextSize)
    }

    /** `reset_to_zero()`: back to 0 warmth; the committed facts persist. */
    method ResetToZero()
      modifies this
      ensures Valid()
      ensures recursionDepth == 0 && unpairedBit == None && !inBreath
      ensures committedFacts == old(committedFacts)
    {
      recursionDepth := 0;
      unpairedBit := None;
      inBreath := false;
    }

    /** `collapse_to_viable(tokens)`: keep one shortest token as the unpaired bit. */
    method CollapseToViable(tokens: set<string>) returns (output: string)
      modifies this
      ensures CollapsedTo(tokens, output)
      ensures tokens == {} ==> unpairedBit == old(unpairedBit)
      ensures tokens != {} ==> unpairedBit.Some? && IsShortest(unpairedBit.value, tokens) &&
                               output == "T=1: " + unpairedBit.value
      ensures recursionDepth == old(recursionDepth) && inBreath == old(inBreath)
      ensures committedFacts == old(committedFacts)
    {
      if tokens == {} {
        return "<silence>";
      }
      ShortestExists(tokens);
      var minimal :| IsShortest(minimal, tokens);
      unpairedBit := Some(minimal);
      output := "T=1: " + minimal;
    }

    /** `breathe(input_text)`: inhale, admit, hold, then exhale or collapse, and return to 0. */
    method Breathe(inputText: string) returns (output: string)
      modifies this
      ensures old(Valid()) ==> Valid()
      ensures committedFacts == old(committedFacts)
      ensures var tokens := Tokenize(inputText);
        var v := CheckAdmissibility(old(recursionDepth), old(unpairedBit), old(committedFacts), tokens, |inputText|);
        var reset := recursionDepth == 0 && unpairedBit == None && !inBreath;
        (v.viability == Halt ==> output == "<silence: " + v.reason + ">" && reset) &&
        (v.viability == Collapse ==> reset && exists r :: NandReduced(tokens, r) && CollapsedTo(r, output)) &&
        (v.viability == Viable ==>
           (exists r :: NandReduced(tokens, r) && output == Emit(r)) &&
           (if old(recursionDepth) + 1 >= MaxRecursion then reset
            else recursionDepth == old(recursionDepth) + 1 && unpairedBit == old(unpairedBit) &&
                 inBreath == old(inBreath)))
    {
      var tokens := Tokenize(inputText);
      var verdict := Admissibility(tokens, |inputText|);
      if verdict.viability == Halt {
        ResetToZero();
        return "<silence: " + verdict.reason + ">";
      }
      var reduced := NandTokens(tokens);
      if verdict.viability == Collapse || recursionDepth >= MaxRecursion {
        output := CollapseToViable(reduced);
        ResetToZero();
        return;
      }
      recursionDepth := recursionDepth + 1;
      if |reduced| == 0 {
        output := "<silence>";
      } else {
        output := Emit(reduced);
      }
      assert output == Emit(reduced);
      if recursionDepth >= MaxRecursion {
        ResetToZero();
      }
    }
  }

  /** The empty text is halted by the T=1 check, at any depth below the limit. */
  lemma EmptyTextIsSilence(depth: nat, unpaired: Option<string>, facts: set<string>)
    requires depth < MaxRecursion
    ensures Tokenize("") == []
    ensures CheckAdmissibility(depth, unpaired, facts, Tokenize(""), |""|) == Verdict(Halt, T1Reason)
  {
    TokenizeEmptyIff("");
    NoTokensHalt(depth, unpaired, facts, 0);
  }
}
