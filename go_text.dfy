/**
 The two pieces of Go's standard library that the rule formatters lean on:
 `strings.Split` with a one-character separator, and the `%v` verb of
 `fmt.Sprintf` applied to a string (the identity) and to a `[]string`
 (the elements joined by single spaces inside square brackets).
 */
module GoText {

  /** `strings.Split(s, string(sep))`: the pieces of `s` between occurrences
      of `sep`. Splitting the empty string gives one empty piece, as in Go. */
  function Split(s: string, sep: char): (pieces: seq<string>)
    ensures |pieces| >= 1
    ensures forall k :: 0 <= k < |pieces| ==> sep !in pieces[k]
    decreases |s|
  {
    if |s| == 0 then [""]
    else if s[0] == sep then [""] + Split(s[1..], sep)
    else
      var rest := Split(s[1..], sep);
      [[s[0]] + rest[0]] + rest[1..]
  }

  /** `strings.Join(elems, sep)`. */
  function Join(elems: seq<string>, sep: string): string
    decreases |elems|
  {
    if |elems| == 0 then ""
    else if |elems| == 1 then elems[0]
    else elems[0] + sep + Join(elems[1..], sep)
  }

  /** `fmt.Sprintf("%v", elems)` for a `[]string`. */
  function FormatStringSlice(elems: seq<string>): (text: string)
    ensures |text| >= 2 && text[0] == '[' && text[|text| - 1] == ']'
  {
    "[" + Join(elems, " ") + "]"
  }

  /** Joining a non-empty list with a separator appends the separator and
      the next element. */
  lemma {:induction false} JoinCons(head: string, tail: seq<string>, sep: string)
    requires |tail| >= 1
    ensures Join([head] + tail, sep) == head + sep + Join(tail, sep)
  {
    assert ([head] + tail)[1..] == tail;
  }

  /** Splitting on `sep` and joining the pieces back with `sep` gives the
      original text: no character is lost, added or moved. */
  lemma {:induction false} JoinSplit(s: string, sep: char)
    ensures Join(Split(s, sep), [sep]) == s
    decreases |s|
  {
    if |s| == 0 {
    } else if s[0] == sep {
      JoinSplit(s[1..], sep);
      JoinCons("", Split(s[1..], sep), [sep]);
      assert s == [sep] + s[1..];
    } else {
      var rest := Split(s[1..], sep);
      JoinSplit(s[1..], sep);
      if |rest| == 1 {
        assert Split(s, sep) == [[s[0]] + rest[0]];
        assert s == [s[0]] + s[1..];
      } else {
        JoinCons(rest[0], rest[1..], [sep]);
        JoinCons([s[0]] + rest[0], rest[1..], [sep]);
        assert [rest[0]] + rest[1..] == rest;
        assert s == [s[0]] + s[1..];
      }
    }
  }

  /** The converse: a non-empty list of pieces none of which contains `sep`
      is recovered by splitting their join on `sep`. */
  lemma {:induction false} SplitJoin(pieces: seq<string>, sep: char)
    requires |pieces| >= 1
    requires forall k :: 0 <= k < |pieces| ==> sep !in pieces[k]
    ensures Split(Join(pieces, [sep]), sep) == pieces
    decreases |pieces|, |pieces[0]|
  {
    var head := pieces[0];
    if |pieces| == 1 {
      SplitPiece(head, sep);
    } else {
      var tail := pieces[1..];
      JoinCons(head, tail, [sep]);
      assert [head] + tail == pieces;
      if |head| == 0 {
        assert Join(pieces, [sep]) == [sep] + Join(tail, [sep]);
        assert (([sep] + Join(tail, [sep]))[1..]) == Join(tail, [sep]);
        SplitJoin(tail, sep);
      } else {
        var shorter := [head[1..]] + tail;
        assert shorter[0] == head[1..] && shorter[1..] == tail;
        assert forall k :: 0 <= k < |shorter| ==> sep !in shorter[k] by {
          forall k | 0 <= k < |shorter| ensures sep !in shorter[k] {
            if k == 0 {
              assert forall c :: c in head[1..] ==> c in head;
            } else {
              assert shorter[k] == pieces[k];
            }
          }
        }
        SplitJoin(shorter, sep);
        JoinCons(head[1..], tail, [sep]);
        var text := Join(pieces, [sep]);
        assert head == [head[0]] + head[1..];
        assert text == [head[0]] + Join(shorter, [sep]);
        assert text[0] == head[0] && text[0] != sep;
        assert text[1..] == Join(shorter, [sep]);
      }
    }
  }

  /** A text without `sep` splits into itself alone. */
  lemma {:induction false} SplitPiece(s: string, sep: char)
    requires sep !in s
    ensures Split(s, sep) == [s]
    decreases |s|
  {
    if |s| > 0 {
      assert sep !in s[1..] by {
        assert forall c :: c in s[1..] ==> c in s;
      }
      SplitPiece(s[1..], sep);
      assert s == [s[0]] + s[1..];
    }
  }

  /** `%v` of the pieces of `s` split on a space: `s` itself in brackets. */
  lemma FormatSplitOnSpace(s: string)
    ensures FormatStringSlice(Split(s, ' ')) == "[" + s + "]"
  {
    JoinSplit(s, ' ');
  }
}
