/**
 * The comma-to-space conversion applied to the `select` and `sort` query
 * parameters: `s.split(",").join(" ")`. String.prototype.split with a
 * one-character separator keeps empty pieces (`"".split(",")` is `[""]`,
 * `"a,,b"` gives three pieces), and Array.prototype.join puts the separator
 * between consecutive pieces only.
 */
module FieldLists {

  /** `s.split(sep)` for a one-character separator. */
  function Split(s: string, sep: char): (parts: seq<string>)
    ensures |parts| >= 1
    ensures forall p :: p in parts ==> sep !in p
  {
    if |s| == 0 then [[]]
    else
      var rest := Split(s[1..], sep);
      if s[0] == sep then [[]] + rest
      else [[s[0]] + rest[0]] + rest[1..]
  }

  /** `parts.join(d)`: the pieces in order, with `d` between neighbours. */
  function Join(parts: seq<string>, d: string): string
  {
    if |parts| == 0 then []
    else if |parts| == 1 then parts[0]
    else parts[0] + d + Join(parts[1..], d)
  }

  /** Independent reference: every `c` replaced by `d`, everything else kept. */
  function Replace(s: string, c: char, d: char): (r: string)
    ensures |r| == |s|
    ensures forall i :: 0 <= i < |s| ==> r[i] == (if s[i] == c then d else s[i])
  {
    if |s| == 0 then [] else [if s[0] == c then d else s[0]] + Replace(s[1..], c, d)
  }

  /** The conversion used for a truthy string `select` or `sort`. */
  function CommaToSpace(s: string): string
  {
    Join(Split(s, ','), " ")
  }

  lemma JoinConsHead(x: char, p: string, ps: seq<string>, d: string)
    ensures Join([[x] + p] + ps, d) == [x] + Join([p] + ps, d)
  {
    if |ps| > 0 {
      assert ([[x] + p] + ps)[1..] == ps;
      assert ([p] + ps)[1..] == ps;
    }
  }

  /** Splitting on `c` and joining with `d` replaces each `c` by `d`. */
  lemma {:induction false} SplitThenJoin(s: string, c: char, d: char)
    ensures Join(Split(s, c), [d]) == Replace(s, c, d)
    decreases |s|
  {
    if |s| > 0 {
      var rest := Split(s[1..], c);
      SplitThenJoin(s[1..], c, d);
      if s[0] == c {
        assert ([[]] + rest)[1..] == rest;
      } else {
        assert rest == [rest[0]] + rest[1..];
        JoinConsHead(s[0], rest[0], rest[1..], [d]);
      }
    }
  }

  /** Joining the pieces with the separator they were split on gives back the input. */
  lemma SplitJoinRoundTrip(s: string, c: char)
    ensures Join(Split(s, c), [c]) == s
  {
    SplitThenJoin(s, c, c);
  }

  /** The converted list is the input with each comma turned into one space. */
  lemma CommaToSpaceReplaces(s: string)
    ensures |CommaToSpace(s)| == |s|
    ensures forall i :: 0 <= i < |s| ==>
      CommaToSpace(s)[i] == (if s[i] == ',' then ' ' else s[i])
  {
    SplitThenJoin(s, ',', ' ');
  }

  /** Replacing `c` by a character `d` that the input lacks keeps the pieces. */
  lemma {:induction false} SplitOfReplace(s: string, c: char, d: char)
    requires d !in s
    ensures Split(Replace(s, c, d), d) == Split(s, c)
    decreases |s|
  {
    if |s| > 0 {
      var r := Replace(s, c, d);
      assert r[1..] == Replace(s[1..], c, d);
      assert r[0] == d <==> s[0] == c;
      SplitOfReplace(s[1..], c, d);
    }
  }

  /**
   * A field list without spaces names the same fields, in the same order,
   * after the conversion: reading it back on spaces gives the comma pieces.
   */
  lemma SameFieldsInOrder(s: string)
    requires ' ' !in s
    ensures Split(CommaToSpace(s), ' ') == Split(s, ',')
  {
    SplitThenJoin(s, ',', ' ');
    SplitOfReplace(s, ',', ' ');
  }
}
