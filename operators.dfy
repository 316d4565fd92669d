/**
 * The comparison-operator rewrite of `getBootcamps`: on the JSON text of the
 * filter, `replace(/\b(gt|gte|lt|lte|in)\b/g, m => "$" + m)`.
 *
 * The reference meaning splits the text into maximal runs of word characters
 * and of non-word characters and puts a `$` in front of every word run that is
 * exactly one of the five operators (MarkOperators). ReplaceOperators scans
 * left to right the way the regular expression engine does (a `\b` test, then
 * the alternatives in their written order, each followed by a `\b` test) and is
 * proved equal to that meaning. Unmark undoes the rewrite.
 */
module OperatorRewrite {
  import opened Wrappers

  /** `\w` of a JavaScript regular expression without the `u` flag. */
  predicate IsWordChar(c: char) {
    'a' <= c <= 'z' || 'A' <= c <= 'Z' || '0' <= c <= '9' || c == '_'
  }

  /** The alternatives of `(gt|gte|lt|lte|in)`, in the order the engine tries them. */
  const Alternatives: seq<string> := ["gt", "gte", "lt", "lte", "in"]

  /** `w` is one of `gt`, `gte`, `lt`, `lte`, `in`, told by its characters. */
  predicate IsOperator(w: string) {
    || (|w| == 2 && (((w[0] == 'g' || w[0] == 'l') && w[1] == 't') || (w[0] == 'i' && w[1] == 'n')))
    || (|w| == 3 && (w[0] == 'g' || w[0] == 'l') && w[1] == 't' && w[2] == 'e')
  }

  /** The operators are exactly the alternatives of the regular expression. */
  lemma {:induction false} OperatorIsListed(w: string)
    ensures IsOperator(w) <==> w in Alternatives
  {
    if IsOperator(w) {
      if |w| == 2 {
        if w[0] == 'g' { assert w == "gt"; }
        else if w[0] == 'l' { assert w == "lt"; }
        else { assert w == "in"; }
      } else {
        if w[0] == 'g' { assert w == "gte"; }
        else { assert w == "lte"; }
      }
    }
    if w in Alternatives {
      assert Alternatives == ["gt", "gte", "lt", "lte", "in"];
    }
  }

  predicate AllOfClass(s: string, w: bool) {
    forall k :: 0 <= k < |s| ==> IsWordChar(s[k]) == w
  }

  /** Every operator is a non-empty word. */
  lemma {:induction false} OperatorsAreWords()
    ensures forall a :: a in Alternatives ==> a != [] && AllOfClass(a, true)
  {
    assert Alternatives == ["gt", "gte", "lt", "lte", "in"];
  }

  lemma {:induction false} NonWordIsNoOperator(r: string)
    requires r != [] && !IsWordChar(r[0])
    ensures !IsOperator(r)
  {
    OperatorsAreWords();
  }

  /**
   * The end of the run that starts at `i`: the first position from `i` on whose
   * character is not of class `w` (word characters when `w`), or the end of `s`.
   */
  function ClassEnd(s: string, i: nat, w: bool): (e: nat)
    requires i <= |s|
    ensures i <= e <= |s|
    ensures forall k :: i <= k < e ==> IsWordChar(s[k]) == w
    ensures e < |s| ==> IsWordChar(s[e]) != w
    decreases |s| - i
  {
    if i == |s| || IsWordChar(s[i]) != w then i else ClassEnd(s, i + 1, w)
  }

  /** A maximal run: non-empty, one character class throughout. */
  predicate IsRun(r: string) {
    r != [] && AllOfClass(r, IsWordChar(r[0]))
  }

  function Concat(rs: seq<string>): string {
    if rs == [] then [] else rs[0] + Concat(rs[1..])
  }

  /** The maximal runs of `s[i..]`. */
  function RunsFrom(s: string, i: nat): seq<string>
    requires i <= |s|
    decreases |s| - i
  {
    if i == |s| then []
    else
      var e := ClassEnd(s, i, IsWordChar(s[i]));
      [s[i..e]] + RunsFrom(s, e)
  }

  /** The split of `s` into maximal runs of word and non-word characters. */
  function Runs(s: string): seq<string> {
    RunsFrom(s, 0)
  }

  /**
   * Neighbouring runs are of different classes, so no run can be extended.
   * The neighbour is bound as `j == i + 1` so that `rs[i]` and `rs[j]` can
   * serve as the quantifier's trigger (an index `i + 1` cannot).
   */
  ghost predicate Alternating(rs: seq<string>) {
    forall i, j :: 0 <= i < j < |rs| && j == i + 1 ==>
      rs[i] != [] && rs[j] != [] && IsWordChar(rs[i][0]) != IsWordChar(rs[j][0])
  }

  lemma {:induction false} RunsFromPartition(s: string, i: nat)
    requires i <= |s|
    ensures Concat(RunsFrom(s, i)) == s[i..]
    ensures forall j :: 0 <= j < |RunsFrom(s, i)| ==> IsRun(RunsFrom(s, i)[j])
    ensures Alternating(RunsFrom(s, i))
    ensures i < |s| ==> RunsFrom(s, i) != [] && RunsFrom(s, i)[0] != [] && RunsFrom(s, i)[0][0] == s[i]
    decreases |s| - i
  {
    if i < |s| {
      var e := ClassEnd(s, i, IsWordChar(s[i]));
      var r := s[i..e];
      var tail := RunsFrom(s, e);
      RunsFromPartition(s, e);
      assert RunsFrom(s, i) == [r] + tail;
      assert ([r] + tail)[1..] == tail;
      assert r + s[e..] == s[i..];
      assert IsRun(r) by {
        forall k | 0 <= k < |r| ensures IsWordChar(r[k]) == IsWordChar(r[0]) {
          assert r[k] == s[i + k];
        }
      }
    }
  }

  /** The runs are maximal and together they are the text. */
  lemma {:induction false} RunsPartition(s: string)
    ensures Concat(Runs(s)) == s
    ensures forall j :: 0 <= j < |Runs(s)| ==> IsRun(Runs(s)[j])
    ensures Alternating(Runs(s))
  {
    RunsFromPartition(s, 0);
    assert s[0..] == s;
  }

  /** A run with its `$` prefix when it is an operator. */
  function Mark(r: string): string {
    if IsOperator(r) then "$" + r else r
  }

  function MarkAll(rs: seq<string>): string {
    if rs == [] then [] else Mark(rs[0]) + MarkAll(rs[1..])
  }

  /** The rewrite of `s[i..]`, read on its own: run by run, each marked when it is an operator. */
  function MarkFrom(s: string, i: nat): string
    requires i <= |s|
    decreases |s| - i
  {
    if i == |s| then []
    else
      var e := ClassEnd(s, i, IsWordChar(s[i]));
      Mark(s[i..e]) + MarkFrom(s, e)
  }

  /** The reference meaning of the rewrite at line 21. */
  function MarkOperators(s: string): string {
    MarkFrom(s, 0)
  }

  lemma {:induction false} MarkFromRuns(s: string, i: nat)
    requires i <= |s|
    ensures MarkFrom(s, i) == MarkAll(RunsFrom(s, i))
    decreases |s| - i
  {
    if i < |s| {
      var e := ClassEnd(s, i, IsWordChar(s[i]));
      var rs := RunsFrom(s, i);
      assert rs == [s[i..e]] + RunsFrom(s, e);
      assert rs[0] == s[i..e] && rs[1..] == RunsFrom(s, e);
      MarkFromRuns(s, e);
    }
  }

  /** The rewrite is the concatenation of the maximal runs, each operator run with a `$` in front. */
  lemma {:induction false} MarkOperatorsIsMarkedRuns(s: string)
    ensures MarkOperators(s) == MarkAll(Runs(s))
  {
    MarkFromRuns(s, 0);
  }

  function CountOperators(rs: seq<string>): nat {
    if rs == [] then 0 else (if IsOperator(rs[0]) then 1 else 0) + CountOperators(rs[1..])
  }

  /** How many maximal word runs of `s` are operators. */
  function OperatorCount(s: string): nat {
    CountOperators(Runs(s))
  }

  /** One step of MarkFrom: the run at `i`, then the rest of the text. */
  lemma {:induction false} MarkFromUnfold(s: string, i: nat)
    requires i < |s|
    ensures var e := ClassEnd(s, i, IsWordChar(s[i]));
            MarkFrom(s, i) == Mark(s[i..e]) + MarkFrom(s, e)
            && CountOperators(RunsFrom(s, i)) == (if IsOperator(s[i..e]) then 1 else 0) + CountOperators(RunsFrom(s, e))
  {
    var e := ClassEnd(s, i, IsWordChar(s[i]));
    assert RunsFrom(s, i) == [s[i..e]] + RunsFrom(s, e);
    assert RunsFrom(s, i)[1..] == RunsFrom(s, e);
  }

  /** A run that starts with a non-word character is never marked. */
  lemma {:induction false} MarkNonWord(r: string)
    requires r != [] && !IsWordChar(r[0])
    ensures Mark(r) == r
  {
    NonWordIsNoOperator(r);
  }

  lemma {:induction false} ClassEndStep(s: string, i: nat, w: bool)
    requires i < |s| && IsWordChar(s[i]) == w
    ensures ClassEnd(s, i, w) == ClassEnd(s, i + 1, w)
  {
  }

  /** A non-word character is copied and the rewrite goes on with the next one. */
  lemma {:induction false} MarkFromNonWord(s: string, i: nat)
    requires i < |s| && !IsWordChar(s[i])
    ensures MarkFrom(s, i) == [s[i]] + MarkFrom(s, i + 1)
  {
    var e := ClassEnd(s, i, false);
    var r := s[i..e];
    ClassEndStep(s, i, false);
    MarkNonWord(r);
    assert MarkFrom(s, i) == r + MarkFrom(s, e);
    if e > i + 1 {
      var r' := s[i + 1..e];
      MarkNonWord(r');
      assert MarkFrom(s, i + 1) == r' + MarkFrom(s, e);
      assert r == [s[i]] + r';
      AppendAssociative([s[i]], r', MarkFrom(s, e));
    } else {
      assert r == [s[i]];
    }
  }

  /** A word run that ends at `e` is marked as a whole, and the rewrite goes on at `e`. */
  lemma {:induction false} MarkFromWord(s: string, i: nat)
    requires i < |s| && IsWordChar(s[i])
    ensures var e := ClassEnd(s, i, true);
            MarkFrom(s, i) == Mark(s[i..e]) + MarkFrom(s, e)
  {
    MarkFromUnfold(s, i);
  }

  lemma {:induction false} MarkFromLength(s: string, i: nat)
    requires i <= |s|
    ensures |MarkFrom(s, i)| == |s| - i + CountOperators(RunsFrom(s, i))
    decreases |s| - i
  {
    if i < |s| {
      var e := ClassEnd(s, i, IsWordChar(s[i]));
      MarkFromUnfold(s, i);
      MarkFromLength(s, e);
    }
  }

  /** Output length: the input length plus one `$` per operator word. */
  lemma {:induction false} MarkOperatorsLength(s: string)
    ensures |MarkOperators(s)| == |s| + OperatorCount(s)
  {
    MarkFromLength(s, 0);
  }

  /** A text that is one word is marked as a whole: an operator gets one `$`; any other word, even one that contains an operator, is unchanged. */
  lemma {:induction false} SingleWord(w: string)
    requires w != [] && AllOfClass(w, true)
    ensures MarkOperators(w) == if IsOperator(w) then "$" + w else w
  {
    MarkFromUnfold(w, 0);
    assert ClassEnd(w, 0, true) == |w|;
    assert w[0..|w|] == w;
  }

  /** Operators inside longer words are left alone. */
  lemma {:induction false} OperatorsInsideWordsUntouched()
    ensures var ws := ["within", "gtx", "lte2"];
            forall k :: 0 <= k < |ws| ==> MarkOperators(ws[k]) == ws[k]
  {
    var ws := ["within", "gtx", "lte2"];
    forall k | 0 <= k < |ws| ensures MarkOperators(ws[k]) == ws[k] {
      SingleWord(ws[k]);
    }
  }

  /** `gte` and `lte` are marked whole, never as `$gt` or `$lt` followed by `e`. */
  lemma {:induction false} LongOperatorsMarkedWhole()
    ensures var ws := ["gte", "lte"];
            forall k :: 0 <= k < |ws| ==> MarkOperators(ws[k]) == "$" + ws[k]
  {
    var ws := ["gte", "lte"];
    forall k | 0 <= k < |ws| ensures MarkOperators(ws[k]) == "$" + ws[k] {
      SingleWord(ws[k]);
    }
  }

  /** The rewrite is not idempotent: `$` is not a word character, so `$gt` gains a second `$`. */
  lemma {:induction false} NotIdempotent()
    ensures MarkOperators("gt") == "$gt"
    ensures MarkOperators(MarkOperators("gt")) == "$$gt"
  {
    SingleWord("gt");
    DollarOperator();
  }

  lemma {:induction false} DollarOperator()
    ensures MarkOperators("$gt") == "$$gt"
  {
    var s := "$gt";
    MarkFromNonWord(s, 0);
    assert ClassEnd(s, 1, true) == 3;
    MarkFromWord(s, 1);
    assert s[1..3] == "gt";
  }

  // ---------------------------------------------------------------------------
  // The inverse: drop the `$` that stands right before a whole operator word.
  // ---------------------------------------------------------------------------

  /** `u` begins with a maximal word run that is an operator. */
  predicate StartsOperatorWord(u: string) {
    u != [] && IsWordChar(u[0]) && IsOperator(u[..ClassEnd(u, 0, true)])
  }

  function Unmark(t: string): string {
    if t == [] then []
    else if t[0] == '$' && StartsOperatorWord(t[1..]) then Unmark(t[1..])
    else [t[0]] + Unmark(t[1..])
  }

  lemma {:induction false} ClassEndConcat(a: string, b: string, i: nat, w: bool)
    requires i <= |a|
    requires forall k :: i <= k < |a| ==> IsWordChar(a[k]) == w
    requires b == [] || IsWordChar(b[0]) != w
    ensures ClassEnd(a + b, i, w) == |a|
    decreases |a| - i
  {
    if i < |a| {
      assert (a + b)[i] == a[i];
      ClassEndConcat(a, b, i + 1, w);
    } else if b != [] {
      assert (a + b)[i] == b[0];
    }
  }

  lemma {:induction false} UnmarkWordPrefix(r: string, u: string)
    requires AllOfClass(r, true)
    ensures Unmark(r + u) == r + Unmark(u)
    decreases |r|
  {
    if r != [] {
      var t := r + u;
      assert t[0] == r[0] && IsWordChar(r[0]);
      assert t[1..] == r[1..] + u;
      assert Unmark(t) == [r[0]] + Unmark(t[1..]);
      UnmarkWordPrefix(r[1..], u);
      AppendAssociative([r[0]], r[1..], Unmark(u));
      assert [r[0]] + r[1..] == r;
    } else {
      assert r + u == u;
    }
  }

  lemma {:induction false} UnmarkNonWordPrefix(r: string, u: string)
    requires AllOfClass(r, false)
    requires !StartsOperatorWord(u)
    ensures Unmark(r + u) == r + Unmark(u)
    decreases |r|
  {
    if r != [] {
      var t := r + u;
      assert t[0] == r[0];
      assert t[1..] == r[1..] + u;
      assert !StartsOperatorWord(t[1..]) by {
        if r[1..] != [] {
          assert t[1..][0] == r[1];
        } else {
          assert t[1..] == u;
        }
      }
      assert Unmark(t) == [r[0]] + Unmark(t[1..]);
      UnmarkNonWordPrefix(r[1..], u);
      AppendAssociative([r[0]], r[1..], Unmark(u));
      assert [r[0]] + r[1..] == r;
    } else {
      assert r + u == u;
    }
  }

  /** The rewrite of a text that starts with a word never starts with an operator word left unmarked. */
  lemma {:induction false} NoBareOperatorAtStart(s: string, i: nat)
    requires i <= |s|
    requires i == |s| || IsWordChar(s[i])
    ensures !StartsOperatorWord(MarkFrom(s, i))
  {
    if i < |s| {
      var e := ClassEnd(s, i, true);
      var w := s[i..e];
      MarkFromWord(s, i);
      if !IsOperator(w) {
        var u := MarkFrom(s, e);
        if e < |s| {
          MarkFromNonWord(s, e);
        }
        ClassEndConcat(w, u, 0, true);
        assert (w + u)[..|w|] == w;
      }
    }
  }

  /** A marked operator run followed by the rewrite of a text that goes on with a non-word character. */
  lemma {:induction false} UnmarkOperatorRun(s: string, i: nat)
    requires i < |s| && IsWordChar(s[i])
    requires IsOperator(s[i..ClassEnd(s, i, true)])
    ensures var e := ClassEnd(s, i, true);
            Unmark(MarkFrom(s, i)) == s[i..e] + Unmark(MarkFrom(s, e))
  {
    var e := ClassEnd(s, i, true);
    var r := s[i..e];
    var u := MarkFrom(s, e);
    MarkFromWord(s, i);
    assert MarkFrom(s, i) == "$" + r + u;
    assert u == [] || !IsWordChar(u[0]) by {
      if e < |s| {
        MarkFromNonWord(s, e);
      }
    }
    UnmarkMarkedOperator(r, u);
  }

  /** `$` + operator word + a text that goes on with a non-word character: the `$` is dropped. */
  lemma {:induction false} UnmarkMarkedOperator(r: string, u: string)
    requires r != [] && AllOfClass(r, true) && IsOperator(r)
    requires u == [] || !IsWordChar(u[0])
    ensures Unmark("$" + r + u) == r + Unmark(u)
  {
    var t := "$" + r + u;
    assert t[0] == '$';
    assert t[1..] == r + u;
    ClassEndConcat(r, u, 0, true);
    assert (r + u)[..|r|] == r;
    assert StartsOperatorWord(t[1..]);
    UnmarkWordPrefix(r, u);
  }

  lemma {:induction false} UnmarkMarkFrom(s: string, i: nat)
    requires i <= |s|
    ensures Unmark(MarkFrom(s, i)) == s[i..]
    decreases |s| - i
  {
    if i < |s| {
      var e := ClassEnd(s, i, IsWordChar(s[i]));
      var r := s[i..e];
      var u := MarkFrom(s, e);
      assert r + s[e..] == s[i..];
      UnmarkMarkFrom(s, e);
      MarkFromUnfold(s, i);
      if !IsWordChar(s[i]) {
        NonWordIsNoOperator(r);
        NoBareOperatorAtStart(s, e);
        UnmarkNonWordPrefix(r, u);
      } else if IsOperator(r) {
        UnmarkOperatorRun(s, i);
      } else {
        UnmarkWordPrefix(r, u);
      }
    } else {
      assert MarkFrom(s, i) == [];
    }
  }

  /** Removing the inserted `$` characters gives back the input. */
  lemma {:induction false} UnmarkMarkOperators(s: string)
    ensures Unmark(MarkOperators(s)) == s
  {
    UnmarkMarkFrom(s, 0);
    assert s[0..] == s;
  }

  // ---------------------------------------------------------------------------
  // The regular expression engine's scan.
  // ---------------------------------------------------------------------------

  predicate WordAt(s: string, k: int) {
    0 <= k < |s| && IsWordChar(s[k])
  }

  /** `\b` at position `i`: word-ness differs on its two sides; outside the text counts as non-word. */
  predicate Boundary(s: string, i: int) {
    WordAt(s, i - 1) != WordAt(s, i)
  }

  /** Tries the alternatives in order, each followed by `\b`; the first that matches wins. */
  function TryAlternatives(s: string, i: nat, alts: seq<string>): (m: Option<string>)
    requires i <= |s|
    ensures m.Some? ==> m.value in alts && i + |m.value| <= |s| && s[i..i + |m.value|] == m.value
  {
    if alts == [] then None
    else if i + |alts[0]| <= |s| && s[i..i + |alts[0]|] == alts[0] && Boundary(s, i + |alts[0]|) then Some(alts[0])
    else TryAlternatives(s, i, alts[1..])
  }

  /** One attempt of `/\b(gt|gte|lt|lte|in)\b/` at position `i`. */
  function MatchAt(s: string, i: nat): (m: Option<string>)
    requires i <= |s|
    ensures m.Some? ==> IsOperator(m.value) && i + |m.value| <= |s| && s[i..i + |m.value|] == m.value
  {
    if Boundary(s, i) then
      var m := TryAlternatives(s, i, Alternatives);
      if m.Some? then OperatorIsListed(m.value); m else m
    else None
  }

  /** At the first character of a word, an alternative matches exactly when it is the whole word. */
  lemma {:induction false} AlternativeMatches(s: string, i: nat, a: string)
    requires i < |s| && IsWordChar(s[i])
    requires a != [] && AllOfClass(a, true)
    ensures var e := ClassEnd(s, i, true);
            (i + |a| <= |s| && s[i..i + |a|] == a && Boundary(s, i + |a|)) <==> a == s[i..e]
  {
    var e := ClassEnd(s, i, true);
    if i + |a| <= |s| && s[i..i + |a|] == a && Boundary(s, i + |a|) {
      var j := i + |a|;
      forall k | i <= k < j ensures IsWordChar(s[k]) {
        assert s[i..j][k - i] == s[k];
      }
      assert j == e;
    }
    if a == s[i..e] {
      assert WordAt(s, e - 1);
    }
  }

  lemma {:induction false} TryAlternativesOnWord(s: string, i: nat, alts: seq<string>)
    requires i < |s| && IsWordChar(s[i])
    requires forall a :: a in alts ==> a != [] && AllOfClass(a, true)
    ensures var w := s[i..ClassEnd(s, i, true)];
            TryAlternatives(s, i, alts) == if w in alts then Some(w) else None
    decreases |alts|
  {
    if alts != [] {
      assert alts[0] in alts;
      AlternativeMatches(s, i, alts[0]);
      assert forall a :: a in alts[1..] ==> a in alts;
      TryAlternativesOnWord(s, i, alts[1..]);
      assert forall a :: a in alts <==> a == alts[0] || a in alts[1..];
    }
  }

  lemma {:induction false} TryAlternativesOnNonWord(s: string, i: nat, alts: seq<string>)
    requires i < |s| && !IsWordChar(s[i])
    requires forall a :: a in alts ==> a != [] && AllOfClass(a, true)
    ensures TryAlternatives(s, i, alts) == None
    decreases |alts|
  {
    if alts != [] {
      var a := alts[0];
      assert a in alts;
      if i + |a| <= |s| {
        assert s[i..i + |a|][0] == s[i];
      }
      assert forall b :: b in alts[1..] ==> b in alts;
      TryAlternativesOnNonWord(s, i, alts[1..]);
    }
  }

  /** The regex matches exactly at the first character of a maximal word run that is an operator, and matches that run. */
  lemma {:induction false} MatchAtRuns(s: string, i: nat)
    requires i < |s|
    ensures !IsWordChar(s[i]) ==> MatchAt(s, i) == None
    ensures 0 < i && IsWordChar(s[i - 1]) ==> MatchAt(s, i) == None
    ensures IsWordChar(s[i]) && (i == 0 || !IsWordChar(s[i - 1])) ==>
              var w := s[i..ClassEnd(s, i, true)];
              MatchAt(s, i) == if IsOperator(w) then Some(w) else None
  {
    OperatorsAreWords();
    if IsWordChar(s[i]) {
      OperatorIsListed(s[i..ClassEnd(s, i, true)]);
      TryAlternativesOnWord(s, i, Alternatives);
    } else {
      TryAlternativesOnNonWord(s, i, Alternatives);
    }
  }

  /**
   * What the scan still has to emit once it stands at position `i`: inside a
   * word (which cannot be an operator, or the scan would have jumped past it)
   * the characters up to the end of the word, then the rewrite of the rest.
   */
  ghost function Pending(s: string, i: nat): string
    requires i <= |s|
    decreases |s| - i
  {
    if i == |s| then []
    else if 0 < i && IsWordChar(s[i - 1]) && IsWordChar(s[i]) then [s[i]] + Pending(s, i + 1)
    else MarkFrom(s, i)
  }

  /** From inside a word that ends at `e`, the scan copies the rest of the word. */
  lemma {:induction false} PendingInWord(s: string, j: nat, e: nat)
    requires 0 < j <= e <= |s|
    requires forall k :: j - 1 <= k < e ==> IsWordChar(s[k])
    ensures Pending(s, j) == s[j..e] + Pending(s, e)
    decreases e - j
  {
    if j < e {
      PendingInWord(s, j + 1, e);
      assert s[j..e] == [s[j]] + s[j + 1..e];
      AppendAssociative([s[j]], s[j + 1..e], Pending(s, e));
    } else {
      assert s[j..e] + Pending(s, e) == Pending(s, e);
    }
  }

  /** At a non-word character the scan copies it. */
  lemma {:induction false} ScanNonWord(s: string, i: nat)
    requires i < |s| && !IsWordChar(s[i])
    ensures MatchAt(s, i) == None
    ensures Pending(s, i) == [s[i]] + Pending(s, i + 1)
  {
    MatchAtRuns(s, i);
    assert Pending(s, i) == MarkFrom(s, i);
    assert Pending(s, i + 1) == MarkFrom(s, i + 1);
    MarkFromNonWord(s, i);
  }

  /** Inside a word the scan copies the character. */
  lemma {:induction false} ScanMidWord(s: string, i: nat)
    requires 0 < i < |s| && IsWordChar(s[i - 1]) && IsWordChar(s[i])
    ensures MatchAt(s, i) == None
    ensures Pending(s, i) == [s[i]] + Pending(s, i + 1)
  {
    MatchAtRuns(s, i);
  }

  /** At the start of a word the scan matches exactly an operator word, and copies otherwise. */
  lemma {:induction false} ScanWordStart(s: string, i: nat)
    requires i < |s| && IsWordChar(s[i]) && (i == 0 || !IsWordChar(s[i - 1]))
    ensures var e := ClassEnd(s, i, true);
            if IsOperator(s[i..e]) then
              MatchAt(s, i) == Some(s[i..e]) && Pending(s, i) == "$" + s[i..e] + Pending(s, e)
            else
              MatchAt(s, i) == None && Pending(s, i) == [s[i]] + Pending(s, i + 1)
  {
    var e := ClassEnd(s, i, true);
    MatchAtRuns(s, i);
    MarkFromWord(s, i);
    assert Pending(s, i) == MarkFrom(s, i);
    assert Pending(s, e) == MarkFrom(s, e);
    if !IsOperator(s[i..e]) {
      PendingInWord(s, i + 1, e);
      assert s[i..e] == [s[i]] + s[i + 1..e];
      AppendAssociative([s[i]], s[i + 1..e], MarkFrom(s, e));
    }
  }

  lemma {:induction false} AppendAssociative(a: string, b: string, c: string)
    ensures a + (b + c) == (a + b) + c
  {
  }

  /** Where the regular expression matches, the pending output is the marked word, then what follows it. */
  lemma {:induction false} ScanMarked(s: string, i: nat, w: string)
    requires i < |s| && MatchAt(s, i) == Some(w)
    ensures i < i + |w| <= |s|
    ensures Pending(s, i) == "$" + w + Pending(s, i + |w|)
  {
    var e := ClassEnd(s, i, true);
    MatchAtRuns(s, i);
    assert IsWordChar(s[i]) && (i == 0 || !IsWordChar(s[i - 1]));
    ScanWordStart(s, i);
    assert w == s[i..e] && i + |w| == e;
  }

  /** Where it does not match, the pending output is the character at `i`, then the rest. */
  lemma {:induction false} ScanCopy(s: string, i: nat)
    requires i < |s| && MatchAt(s, i).None?
    ensures Pending(s, i) == [s[i]] + Pending(s, i + 1)
  {
    if !IsWordChar(s[i]) {
      ScanNonWord(s, i);
    } else if 0 < i && IsWordChar(s[i - 1]) {
      ScanMidWord(s, i);
    } else {
      ScanWordStart(s, i);
    }
  }

  /** `queryStr.replace(/\b(gt|gte|lt|lte|in)\b/g, match => "$" + match)`, scanning left to right. */
  method ReplaceOperators(s: string) returns (out: string)
    ensures out == MarkOperators(s)
  {
    out := "";
    var i := 0;
    while i < |s|
      invariant i <= |s|
      invariant out + Pending(s, i) == MarkOperators(s)
      decreases |s| - i
    {
      var m := MatchAt(s, i);
      if m.Some? {
        ScanMarked(s, i, m.value);
        AppendAssociative(out, "$" + m.value, Pending(s, i + |m.value|));
        out, i := out + ("$" + m.value), i + |m.value|;
      } else {
        ScanCopy(s, i);
        AppendAssociative(out, [s[i]], Pending(s, i + 1));
        out, i := out + [s[i]], i + 1;
      }
    }
  }
}
