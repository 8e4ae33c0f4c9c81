/** String splitting as JavaScript's `String.prototype.split` performs it
    with a single character or a character class as the separator. */
module Text {

  /** No character of `s` is a separator. */
  predicate NoneIn(s: string, seps: set<char>)
  {
    forall i :: 0 <= i < |s| ==> s[i] !in seps
  }

  /** The separator characters of `s`, in the order they occur. */
  function Separators(s: string, seps: set<char>): (ops: seq<char>)
    ensures forall k :: 0 <= k < |ops| ==> ops[k] in seps
  {
    if s == [] then []
    else (if s[0] in seps then [s[0]] else []) + Separators(s[1..], seps)
  }

  /** The pieces of `s` between separators: `n` separators give `n + 1`
      pieces, and two adjacent separators (or one at either end) give an
      empty piece, as with `s.split(/[...]/)`. */
  function Split(s: string, seps: set<char>): (parts: seq<string>)
    ensures |parts| == |Separators(s, seps)| + 1
    ensures forall k :: 0 <= k < |parts| ==> NoneIn(parts[k], seps)
  {
    if s == [] then [[]]
    else
      var rest := Split(s[1..], seps);
      if s[0] in seps then [[]] + rest
      else [[s[0]] + rest[0]] + rest[1..]
  }

  /** Puts the pieces back together with the separators between them. */
  function Join(parts: seq<string>, ops: seq<char>): string
    requires |parts| == |ops| + 1
  {
    if ops == [] then parts[0]
    else parts[0] + [ops[0]] + Join(parts[1..], ops[1..])
  }

  /** Splitting loses nothing: the pieces and the separators rebuild `s`. */
  lemma {:induction false} JoinSplit(s: string, seps: set<char>)
    ensures Join(Split(s, seps), Separators(s, seps)) == s
  {
    if s != [] {
      JoinSplit(s[1..], seps);
      var rest := Split(s[1..], seps);
      var restOps := Separators(s[1..], seps);
      var parts := Split(s, seps);
      assert s == [s[0]] + s[1..];
      if s[0] in seps {
        assert parts[1..] == rest;
      } else if restOps != [] {
        assert parts[0] == [s[0]] + rest[0] && parts[1..] == rest[1..];
        assert Separators(s, seps) == restOps;
        assert Join(parts, restOps) == parts[0] + [restOps[0]] + Join(rest[1..], restOps[1..]);
        assert Join(rest, restOps) == rest[0] + [restOps[0]] + Join(rest[1..], restOps[1..]);
      }
    }
  }

  /** A string with no separator is a single piece. */
  lemma {:induction false} SplitWithout(s: string, seps: set<char>)
    requires NoneIn(s, seps)
    ensures Split(s, seps) == [s]
    ensures Separators(s, seps) == []
  {
    if s != [] {
      SplitWithout(s[1..], seps);
      assert s == [s[0]] + s[1..];
    }
  }

  /** Splitting at a separator splits the two sides independently. */
  lemma {:induction false} SplitAround(a: string, c: char, b: string, seps: set<char>)
    requires c in seps
    ensures Split(a + [c] + b, seps) == Split(a, seps) + Split(b, seps)
    ensures Separators(a + [c] + b, seps) == Separators(a, seps) + [c] + Separators(b, seps)
  {
    PiecesAround(a, c, b, seps);
    SeparatorsAround(a, c, b, seps);
  }

  lemma {:induction false} PiecesAround(a: string, c: char, b: string, seps: set<char>)
    requires c in seps
    ensures Split(a + [c] + b, seps) == Split(a, seps) + Split(b, seps)
  {
    var s := a + [c] + b;
    if a == [] {
      assert s[0] == c && s[1..] == b;
    } else {
      assert s[0] == a[0] && s[1..] == a[1..] + [c] + b;
      PiecesAround(a[1..], c, b, seps);
      var left := Split(a[1..], seps);
      var rest := Split(s[1..], seps);
      if a[0] in seps {
        assert Split(a, seps) == [[]] + left;
      } else {
        assert rest[0] == left[0] && rest[1..] == left[1..] + Split(b, seps);
        assert Split(a, seps) == [[a[0]] + left[0]] + left[1..];
      }
    }
  }

  lemma {:induction false} SeparatorsAround(a: string, c: char, b: string, seps: set<char>)
    requires c in seps
    ensures Separators(a + [c] + b, seps) == Separators(a, seps) + [c] + Separators(b, seps)
  {
    var s := a + [c] + b;
    if a == [] {
      assert s[0] == c && s[1..] == b;
    } else {
      assert s[0] == a[0] && s[1..] == a[1..] + [c] + b;
      SeparatorsAround(a[1..], c, b, seps);
    }
  }

  /** Only the separators that occur in `s` matter. */
  lemma {:induction false} SplitSameSeparators(s: string, seps: set<char>, seps': set<char>)
    requires forall i :: 0 <= i < |s| ==> (s[i] in seps <==> s[i] in seps')
    ensures Split(s, seps) == Split(s, seps')
    ensures Separators(s, seps) == Separators(s, seps')
  {
    if s != [] {
      SplitSameSeparators(s[1..], seps, seps');
    }
  }

  /** When splitting on one character gives two pieces, the string is the
      first piece, that character and the second piece. */
  lemma TwoParts(s: string, c: char)
    requires |Split(s, {c})| == 2
    ensures s == Split(s, {c})[0] + [c] + Split(s, {c})[1]
  {
    JoinSplit(s, {c});
    var ops := Separators(s, {c});
    assert ops[0] == c;
    assert Join(Split(s, {c})[1..], ops[1..]) == Split(s, {c})[1];
  }

  /** Splitting a join of separator-free pieces gives back the pieces and
      the separators. */
  lemma {:induction false} SplitJoin(parts: seq<string>, ops: seq<char>, seps: set<char>)
    requires |parts| == |ops| + 1
    requires forall k :: 0 <= k < |parts| ==> NoneIn(parts[k], seps)
    requires forall k :: 0 <= k < |ops| ==> ops[k] in seps
    ensures Split(Join(parts, ops), seps) == parts
    ensures Separators(Join(parts, ops), seps) == ops
  {
    SplitWithout(parts[0], seps);
    if ops != [] {
      SplitJoin(parts[1..], ops[1..], seps);
      SplitAround(parts[0], ops[0], Join(parts[1..], ops[1..]), seps);
      assert parts == [parts[0]] + parts[1..];
      assert ops == [ops[0]] + ops[1..];
    }
  }

  /** Joining one more piece appends its separator and the piece. */
  lemma {:induction false} JoinSnoc(parts: seq<string>, ops: seq<char>, last: string, c: char)
    requires |parts| == |ops| + 1
    ensures Join(parts + [last], ops + [c]) == Join(parts, ops) + [c] + last
  {
    if ops != [] {
      JoinSnoc(parts[1..], ops[1..], last, c);
      assert (parts + [last])[1..] == parts[1..] + [last];
      assert (ops + [c])[1..] == ops[1..] + [c];
    }
  }
}
