/** `CalculatorTool.forward` (main/tools/calculator.py) up to the evaluation: the expression is lower-cased,
    number words are rewritten into operators one key at a time, longest key first, and every character
    outside the arithmetic alphabet is dropped; an evaluation failure comes back as an "Error: " text. */
module Calculator {
  import opened Strings

  // ---------------------------------------------------------------------------------------------
  // Lower-casing and word boundaries

  function LowerChar(c: char): char
  {
    if 'A' <= c <= 'Z' then (c as int + 32) as char else c
  }

  /** `str.lower()`, on ASCII letters. */
  function Lower(s: string): (r: string)
    ensures |r| == |s|
    ensures forall i :: 0 <= i < |s| ==> r[i] == LowerChar(s[i])
  {
    if s == [] then [] else [LowerChar(s[0])] + Lower(s[1..])
  }

  /** The regex class `\w`, on ASCII. */
  predicate IsWordChar(c: char)
  {
    ('a' <= c <= 'z') || ('A' <= c <= 'Z') || ('0' <= c <= '9') || c == '_'
  }

  /** There is a word character at index `i` (false outside the string). */
  predicate WordAt(s: string, i: int)
  {
    0 <= i < |s| && IsWordChar(s[i])
  }

  /** `\b` matches at index `i`: a word character on one side only. */
  predicate Boundary(s: string, i: int)
  {
    WordAt(s, i - 1) != WordAt(s, i)
  }

  /** `\bw\b` matches at index `i`. */
  predicate WholeWordAt(s: string, w: string, i: nat)
  {
    OccursAt(s, w, i) && Boundary(s, i) && Boundary(s, i + |w|)
  }

  // ---------------------------------------------------------------------------------------------
  // re.sub(rf'\b{re.escape(word)}\b', op, expr)

  /** The substitution applied to `s[i..]`, scanning left to right and resuming after each match; the
      boundaries are judged on the original text. (The table has no empty key; one would match nowhere.) */
  function SubFrom(s: string, w: string, op: string, i: nat): string
    requires i <= |s|
    decreases |s| - i
  {
    if i == |s| then ""
    else if |w| > 0 && WholeWordAt(s, w, i) then op + SubFrom(s, w, op, i + |w|)
    else [s[i]] + SubFrom(s, w, op, i + 1)
  }

  function Sub(s: string, w: string, op: string): string
  {
    SubFrom(s, w, op, 0)
  }

  /** Where the word never occurs as a whole word, the substitution changes nothing. */
  lemma {:induction false} SubWithoutMatch(s: string, w: string, op: string, i: nat)
    requires i <= |s|
    requires forall j: nat :: i <= j ==> !WholeWordAt(s, w, j)
    ensures SubFrom(s, w, op, i) == s[i..]
    decreases |s| - i
  {
    if i < |s| {
      SubWithoutMatch(s, w, op, i + 1);
      assert s[i..] == [s[i]] + s[i + 1..];
    }
  }

  /** The scan copies the text up to the first whole-word occurrence at or after `i`, puts the operator
      in its place and resumes right after it. */
  lemma {:induction false} SubAtFirstMatch(s: string, w: string, op: string, i: nat, j: nat)
    requires i <= j && |w| > 0 && WholeWordAt(s, w, j)
    requires forall x: nat :: i <= x < j ==> !WholeWordAt(s, w, x)
    ensures SubFrom(s, w, op, i) == s[i..j] + op + SubFrom(s, w, op, j + |w|)
    decreases j - i
  {
    var rest := SubFrom(s, w, op, j + |w|);
    if i < j {
      assert !WholeWordAt(s, w, i);
      calc {
        SubFrom(s, w, op, i);
        [s[i]] + SubFrom(s, w, op, i + 1);
        { SubAtFirstMatch(s, w, op, i + 1, j); }
        [s[i]] + (s[i + 1..j] + op + rest);
        { ConcatAssoc([s[i]], s[i + 1..j] + op, rest); ConcatAssoc([s[i]], s[i + 1..j], op); }
        [s[i]] + s[i + 1..j] + op + rest;
        { SliceCons(s, i, j); }
        s[i..j] + op + rest;
      }
    } else {
      assert s[i..j] + op + rest == op + rest;
    }
  }

  lemma SliceCons(s: string, i: nat, j: nat)
    requires i < j <= |s|
    ensures s[i..j] == [s[i]] + s[i + 1..j]
  {
  }

  /** `x` inside "2x3" or "max" is not a whole word and stays; standing alone it becomes `*`. */
  lemma WholeWordsOnly()
    ensures Sub("2x3", "x", "*") == "2x3"
    ensures Sub("max", "x", "*") == "max"
    ensures Sub("2 x 3", "x", "*") == "2 * 3"
  {
    var a := "2x3";
    forall j: nat | 0 <= j ensures !WholeWordAt(a, "x", j) {
      if j == 1 {
        assert WordAt(a, 0) && WordAt(a, 1);
      } else if j < |a| {
        MismatchAt(a, "x", j, 0);
      }
    }
    SubWithoutMatch(a, "x", "*", 0);
    var b := "max";
    forall j: nat | 0 <= j ensures !WholeWordAt(b, "x", j) {
      if j == 2 {
        assert WordAt(b, 1) && WordAt(b, 2);
      } else if j < |b| {
        MismatchAt(b, "x", j, 0);
      }
    }
    SubWithoutMatch(b, "x", "*", 0);
    var c := "2 x 3";
    MismatchAt(c, "x", 0, 0);
    MismatchAt(c, "x", 1, 0);
    assert WholeWordAt(c, "x", 2);
    MismatchAt(c, "x", 3, 0);
    MismatchAt(c, "x", 4, 0);
    assert SubFrom(c, "x", "*", 3) == " 3";
  }

  // ---------------------------------------------------------------------------------------------
  // The replacement table and its order

  /** The replacement dictionary, in its literal order. */
  const Replacements: seq<(string, string)> := [
    ("into", "*"), ("times", "*"), ("plus", "+"), ("minus", "-"), ("divided by", "/"),
    ("divide by", "/"), ("divide", "/"), ("multiplied by", "*"), ("multiplied", "*"), ("x", "*")]

  /** Put `p` after every entry whose key is at least as long. */
  function Insert(p: (string, string), sorted: seq<(string, string)>): seq<(string, string)>
  {
    if sorted == [] then [p]
    else if |sorted[0].0| >= |p.0| then [sorted[0]] + Insert(p, sorted[1..])
    else [p] + sorted
  }

  /** `sorted(replacements, key=lambda x: -len(x))`: a stable sort by decreasing key length. */
  function ByDecreasingLength(ps: seq<(string, string)>): seq<(string, string)>
  {
    if ps == [] then []
    else Insert(ps[|ps| - 1], ByDecreasingLength(ps[..|ps| - 1]))
  }

  /** Inserting adds exactly the one entry. */
  lemma {:induction false} InsertPermutes(p: (string, string), sorted: seq<(string, string)>)
    ensures multiset(Insert(p, sorted)) == multiset(sorted) + multiset{p}
  {
    if sorted != [] && |sorted[0].0| >= |p.0| {
      InsertPermutes(p, sorted[1..]);
      assert sorted == [sorted[0]] + sorted[1..];
    }
  }

  /** The sort is a permutation of its input. */
  lemma {:induction false} SortPermutes(ps: seq<(string, string)>)
    ensures multiset(ByDecreasingLength(ps)) == multiset(ps)
  {
    if ps != [] {
      SortPermutes(ps[..|ps| - 1]);
      InsertPermutes(ps[|ps| - 1], ByDecreasingLength(ps[..|ps| - 1]));
      assert ps == ps[..|ps| - 1] + [ps[|ps| - 1]];
    }
  }

  ghost predicate KeysDecrease(ps: seq<(string, string)>)
  {
    forall i, j :: 0 <= i < j < |ps| ==> |ps[i].0| >= |ps[j].0|
  }

  /** In a sequence whose keys decrease, the first key is as long as any entry of the rest. */
  lemma LongestFirst(sorted: seq<(string, string)>, q: (string, string))
    requires KeysDecrease(sorted) && sorted != [] && q in sorted[1..]
    ensures |sorted[0].0| >= |q.0|
  {
    var m :| 0 <= m < |sorted[1..]| && sorted[1..][m] == q;
    assert sorted[m + 1] == q;
  }

  /** An entry at least as long as every entry of an ordered sequence can go in front of it. */
  lemma ConsKeepsOrder(x: (string, string), rest: seq<(string, string)>)
    requires KeysDecrease(rest)
    requires forall q :: q in rest ==> |x.0| >= |q.0|
    ensures KeysDecrease([x] + rest)
  {
    var r := [x] + rest;
    forall i, j | 0 <= i < j < |r| ensures |r[i].0| >= |r[j].0| {
      assert r[j] == rest[j - 1];
      if i > 0 {
        assert r[i] == rest[i - 1];
      }
    }
  }

  lemma {:induction false} InsertKeepsOrder(p: (string, string), sorted: seq<(string, string)>)
    requires KeysDecrease(sorted)
    ensures KeysDecrease(Insert(p, sorted))
  {
    if sorted == [] {
    } else if |sorted[0].0| >= |p.0| {
      InsertKeepsOrder(p, sorted[1..]);
      var rest := Insert(p, sorted[1..]);
      InsertPermutes(p, sorted[1..]);
      forall q | q in rest ensures |sorted[0].0| >= |q.0| {
        assert q in multiset(rest);
        if q != p {
          assert q in multiset(sorted[1..]);
          LongestFirst(sorted, q);
        }
      }
      ConsKeepsOrder(sorted[0], rest);
    } else {
      forall q | q in sorted ensures |p.0| >= |q.0| {
        var m :| 0 <= m < |sorted| && sorted[m] == q;
      }
      ConsKeepsOrder(p, sorted);
    }
  }

  /** The sort really orders the keys by decreasing length. */
  lemma {:induction false} SortedByLength(ps: seq<(string, string)>)
    ensures KeysDecrease(ByDecreasingLength(ps))
  {
    if ps != [] {
      SortedByLength(ps[..|ps| - 1]);
      InsertKeepsOrder(ps[|ps| - 1], ByDecreasingLength(ps[..|ps| - 1]));
    }
  }

  /** The order the rewriting loop follows. */
  function SortedReplacements(): seq<(string, string)>
  {
    ByDecreasingLength(Replacements)
  }

  /** Inserting places the entry after the leading run of keys at least as long as its own. */
  lemma {:induction false} InsertAt(p: (string, string), a: seq<(string, string)>, b: seq<(string, string)>)
    requires forall q :: q in a ==> |q.0| >= |p.0|
    requires b == [] || |b[0].0| < |p.0|
    ensures Insert(p, a + b) == a + [p] + b
  {
    if a != [] {
      assert (a + b)[0] == a[0] && (a + b)[1..] == a[1..] + b;
      InsertAt(p, a[1..], b);
    } else {
      assert a + b == b;
    }
  }

  /** The key lengths of the table, entry by entry: 4, 5, 4, 5, 10, 9, 6, 13, 10, 1. */
  predicate TableShape(t: seq<(string, string)>)
  {
    && |t| == 10
    && |t[0].0| == 4 && |t[1].0| == 5 && |t[2].0| == 4 && |t[3].0| == 5 && |t[4].0| == 10
    && |t[5].0| == 9 && |t[6].0| == 6 && |t[7].0| == 13 && |t[8].0| == 10 && |t[9].0| == 1
  }

  /** The first five entries of such a table, sorted. */
  lemma {:induction false} FirstFiveOrder(t: seq<(string, string)>)
    requires TableShape(t)
    ensures ByDecreasingLength(t[..5]) == [t[4], t[1], t[3], t[0], t[2]]
  {
    assert t[..1][..0] == t[..0];
    InsertAt(t[0], [], []);
    assert ByDecreasingLength(t[..1]) == [t[0]];
    assert t[..2][..1] == t[..1];
    InsertAt(t[1], [], [t[0]]);
    assert ByDecreasingLength(t[..2]) == [t[1], t[0]];
    assert t[..3][..2] == t[..2];
    InsertAt(t[2], [t[1], t[0]], []);
    assert [t[1], t[0]] + [] == [t[1], t[0]];
    assert ByDecreasingLength(t[..3]) == [t[1], t[0], t[2]];
    assert t[..4][..3] == t[..3];
    InsertAt(t[3], [t[1]], [t[0], t[2]]);
    assert ByDecreasingLength(t[..4]) == [t[1], t[3], t[0], t[2]];
    assert t[..5][..4] == t[..4];
    InsertAt(t[4], [], [t[1], t[3], t[0], t[2]]);
  }

  /** The first seven entries of such a table, sorted. */
  lemma {:induction false} FirstSevenOrder(t: seq<(string, string)>)
    requires TableShape(t)
    ensures ByDecreasingLength(t[..7]) == [t[4], t[5], t[6], t[1], t[3], t[0], t[2]]
  {
    var tail := [t[1], t[3], t[0], t[2]];
    FirstFiveOrder(t);
    assert t[..6][..5] == t[..5];
    InsertAt(t[5], [t[4]], tail);
    assert ByDecreasingLength(t[..6]) == [t[4], t[5]] + tail;
    assert t[..7][..6] == t[..6];
    InsertAt(t[6], [t[4], t[5]], tail);
  }

  /** The first nine entries of such a table, sorted. */
  lemma {:induction false} FirstNineOrder(t: seq<(string, string)>)
    requires TableShape(t)
    ensures ByDecreasingLength(t[..9]) == [t[7], t[4], t[8], t[5], t[6], t[1], t[3], t[0], t[2]]
  {
    var tail := [t[5], t[6], t[1], t[3], t[0], t[2]];
    FirstSevenOrder(t);
    assert t[..8][..7] == t[..7];
    InsertAt(t[7], [], [t[4]] + tail);
    assert ByDecreasingLength(t[..8]) == [t[7], t[4]] + tail;
    assert t[..9][..8] == t[..8];
    InsertAt(t[8], [t[7], t[4]], tail);
  }

  /** The whole of such a table, sorted. */
  lemma {:induction false} TableOrder(t: seq<(string, string)>)
    requires TableShape(t)
    ensures ByDecreasingLength(t) == [t[7], t[4], t[8], t[5], t[6], t[1], t[3], t[0], t[2], t[9]]
  {
    var s := [t[7], t[4], t[8], t[5], t[6], t[1], t[3], t[0], t[2]];
    FirstNineOrder(t);
    assert t[..9] == t[..|t| - 1];
    InsertAt(t[9], s, []);
    assert s + [] == s && s + [t[9]] + [] == s + [t[9]];
  }

  /** The loop's order: multi-word keys before their one-word prefixes, and keys of equal length in
      dictionary order ("divided by" before "multiplied", "times" before "minus", "into" before "plus"). */
  lemma ReplacementOrder()
    ensures SortedReplacements() == [
      ("multiplied by", "*"), ("divided by", "/"), ("multiplied", "*"), ("divide by", "/"), ("divide", "/"),
      ("times", "*"), ("minus", "-"), ("into", "*"), ("plus", "+"), ("x", "*")]
  {
    TableOrder(Replacements);
  }

  // ---------------------------------------------------------------------------------------------
  // The rewriting loop and the character filter

  /** The text after applying the substitutions of `ps` in order. */
  function ApplyAll(ps: seq<(string, string)>, s: string): string
  {
    if ps == [] then s
    else
      var last := ps[|ps| - 1];
      Sub(ApplyAll(ps[..|ps| - 1], s), last.0, last.1)
  }

  /** The loop of `forward`: the substitutions of `keys` applied one after the other. */
  method ApplyKeys(keys: seq<(string, string)>, text: string) returns (expr: string)
    ensures expr == ApplyAll(keys, text)
  {
    expr := text;
    for k := 0 to |keys|
      invariant expr == ApplyAll(keys[..k], text)
    {
      assert keys[..k + 1][..k] == keys[..k];
      expr := Sub(expr, keys[k].0, keys[k].1);
    }
    assert keys[..|keys|] == keys;
  }

  /** The expression lower-cased and then rewritten by every key of the table, longest key first. */
  method Rewrite(expression: string) returns (expr: string)
    ensures expr == ApplyAll(SortedReplacements(), Lower(expression))
  {
    expr := ApplyKeys(SortedReplacements(), Lower(expression));
  }

  /** The characters the filter's class lets through: digits, the four operators, the point,
      parentheses and the space. */
  predicate SafeChar(c: char)
  {
    ('0' <= c <= '9') || c == '.' || c == '+' || c == '-' || c == '*' || c == '/' || c == '(' || c == ')' || c == ' '
  }

  /** `safe_expr`, the joined `re.findall` of runs of allowed characters: the allowed characters of
      the text, in order. */
  function SafeExpr(s: string): (r: string)
    ensures forall i :: 0 <= i < |r| ==> SafeChar(r[i])
    ensures forall c :: SafeChar(c) ==> multiset(r)[c] == multiset(s)[c]
  {
    if s == [] then []
    else
      assert s == [s[0]] + s[1..];
      (if SafeChar(s[0]) then [s[0]] else []) + SafeExpr(s[1..])
  }

  /** The filter works piece by piece, so it keeps the original order. */
  lemma {:induction false} SafeExprAppend(a: string, b: string)
    ensures SafeExpr(a + b) == SafeExpr(a) + SafeExpr(b)
  {
    if a == [] {
      assert a + b == b;
    } else {
      assert (a + b)[0] == a[0] && (a + b)[1..] == a[1..] + b;
      SafeExprAppend(a[1..], b);
    }
  }

  /** A text of allowed characters passes unchanged; in particular the filter is idempotent. */
  lemma {:induction false} SafeExprKeepsSafe(s: string)
    requires forall i :: 0 <= i < |s| ==> SafeChar(s[i])
    ensures SafeExpr(s) == s
  {
    if s != [] {
      SafeExprKeepsSafe(s[1..]);
    }
  }

  // ---------------------------------------------------------------------------------------------
  // forward

  /** What `eval` did with the filtered expression: a value, or the text of the exception it raised. */
  datatype EvalOutcome<V> = Evaluated(value: V) | Raised(message: string)

  /** What `forward` returns: the value, or an "Error: " text. */
  datatype Reply<V> = Value(value: V) | ErrorText(text: string)

  /** `forward(expression)`, with `eval` given as a parameter. Evaluation sees only allowed characters,
      and a failure is reported as text instead of escaping. */
  method Forward<V>(expression: string, eval: string -> EvalOutcome<V>) returns (r: Reply<V>)
    ensures var safe := SafeExpr(ApplyAll(SortedReplacements(), Lower(expression)));
      && (forall i :: 0 <= i < |safe| ==> SafeChar(safe[i]))
      && (eval(safe).Evaluated? ==> r == Value(eval(safe).value))
      && (eval(safe).Raised? ==> r == ErrorText("Error: " + eval(safe).message))
  {
    var expr := Rewrite(expression);
    var safe := SafeExpr(expr);
    match eval(safe)
    case Evaluated(v) =>
      r := Value(v);
    case Raised(m) =>
      r := ErrorText("Error: " + m);
  }
}
