/** Request line collection (`read_request`, src/main.rs:9-17).
    The stream is already split into lines; a line that failed to decode
    is `None`. The pipeline is `filter_map(ok)`, then `take_while(non-empty)`. */
module Request {
  import opened Wrappers

  /** `filter_map(|result| result.ok())`: the lines that decoded, in order. */
  function DecodedLines(lines: seq<Option<string>>): (r: seq<string>)
    ensures |r| <= |lines|
    ensures forall s :: s in r <==> Some(s) in lines
  {
    if lines == [] then []
    else
      assert lines == [lines[0]] + lines[1..];
      match lines[0]
      case None => DecodedLines(lines[1..])
      case Some(l) => [l] + DecodedLines(lines[1..])
  }

  /** `take_while(|line| !line.is_empty())`: the lines before the first
      empty one, characterised as the longest prefix with no empty line. */
  function TakeWhileNonEmpty(ls: seq<string>): (r: seq<string>)
    ensures r <= ls
    ensures "" !in r
    ensures |r| < |ls| ==> ls[|r|] == ""
  {
    if ls == [] || ls[0] == "" then [] else [ls[0]] + TakeWhileNonEmpty(ls[1..])
  }

  /** The request lines handed to the router: the decoded lines up to, and
      not including, the first empty decoded line (or all of them). */
  function ReadRequest(lines: seq<Option<string>>): (r: seq<string>)
    ensures "" !in r
    ensures forall s :: s in r ==> Some(s) in lines
    ensures r <= DecodedLines(lines)
    ensures |r| < |DecodedLines(lines)| ==> DecodedLines(lines)[|r|] == ""
  {
    TakeWhileNonEmpty(DecodedLines(lines))
  }

  /** The characterisation of `TakeWhileNonEmpty` fixes its result. */
  lemma LongestPrefixUnique(ls: seq<string>, p: seq<string>)
    requires p <= ls && "" !in p
    requires |p| < |ls| ==> ls[|p|] == ""
    ensures p == TakeWhileNonEmpty(ls)
  {
  }

  /** Decoding is line by line: it distributes over concatenation. */
  lemma {:induction false} DecodedLinesAppend(xs: seq<Option<string>>, ys: seq<Option<string>>)
    ensures DecodedLines(xs + ys) == DecodedLines(xs) + DecodedLines(ys)
  {
    if xs == [] {
      assert xs + ys == ys;
    } else {
      assert (xs + ys)[1..] == xs[1..] + ys;
      DecodedLinesAppend(xs[1..], ys);
    }
  }

  /** One line at a time: a line that decoded contributes exactly itself, a
      failed one nothing. With `DecodedLinesAppend` this fixes the result:
      the decoded lines, each kept once per occurrence, in their order. */
  lemma DecodedLinesOne(s: string)
    ensures DecodedLines([None]) == []
    ensures DecodedLines([Some(s)]) == [s]
  {
  }

  /** A line that fails to decode is skipped; it does not end the request. */
  lemma ReadRequestSkipsFailures(xs: seq<Option<string>>, ys: seq<Option<string>>)
    ensures ReadRequest(xs + [None] + ys) == ReadRequest(xs + ys)
  {
    DecodedLinesAppend(xs + [None], ys);
    DecodedLinesAppend(xs, [None]);
    DecodedLinesAppend(xs, ys);
    assert DecodedLines([None]) == DecodedLines([]) == [];
    assert DecodedLines(xs + [None] + ys) == DecodedLines(xs) + DecodedLines(ys);
  }

  /** The first empty line ends the request: nothing after it is read, and
      every decoded line before it is kept. */
  lemma ReadRequestStopsAtBlankLine(xs: seq<Option<string>>, ys: seq<Option<string>>)
    requires Some("") !in xs
    ensures ReadRequest(xs + [Some("")] + ys) == DecodedLines(xs)
  {
    var ds := DecodedLines(xs);
    DecodedLinesAppend(xs + [Some("")], ys);
    DecodedLinesAppend(xs, [Some("")]);
    assert DecodedLines([Some("")]) == [""];
    LongestPrefixUnique(ds + [""] + DecodedLines(ys), ds);
  }

  /** The request is empty exactly when no line decoded or the first
      decoded line is empty (a client that closed at once, or sent only
      the blank line). */
  lemma ReadRequestEmpty(lines: seq<Option<string>>)
    ensures ReadRequest(lines) == [] <==> DecodedLines(lines) == [] || DecodedLines(lines)[0] == ""
  {
  }

  /** The lines of a request in which every line decoded. */
  function LinesOf(ls: seq<string>): (lines: seq<Option<string>>)
    ensures |lines| == |ls| && forall i :: 0 <= i < |ls| ==> lines[i] == Some(ls[i])
  {
    seq(|ls|, i requires 0 <= i < |ls| => Some(ls[i]))
  }

  /** When every line decodes and none is empty, the request is all of them. */
  lemma {:induction false} ReadAllDecoded(ls: seq<string>)
    requires "" !in ls
    ensures ReadRequest(LinesOf(ls)) == ls
  {
    if ls == [] {
      assert LinesOf(ls) == [];
    } else {
      assert LinesOf(ls) == [Some(ls[0])] + LinesOf(ls[1..]);
      ReadAllDecoded(ls[1..]);
      assert ls == [ls[0]] + ls[1..];
    }
  }
}
