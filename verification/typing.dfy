/** `tinyml4all/typing.py`: the normalisation of a column-name or row
    argument that is either one comma-separated string or a ready list. */
module Typing {
  import opened Seqs
  import opened Text

  /** Python's `Union[str, List[str]]`. */
  datatype ListOfStrings = Str(text: string) | List(items: seq<string>)

  /** A token as it may appear in a normalised list: non-empty, without
      surrounding whitespace and without a comma. */
  predicate IsCleanToken(t: string) {
    t != "" && IsTrimmed(t) && ',' !in t
  }

  /** The list comprehension `[s.strip() for s in tokens if s.strip()]`. */
  function Clean(tokens: seq<string>): (r: seq<string>)
    ensures |r| <= |tokens|
    ensures forall i :: 0 <= i < |r| ==> r[i] != "" && IsTrimmed(r[i])
    decreases |tokens|
  {
    if |tokens| == 0 then []
    else
      var t := Strip(tokens[0]);
      var rest := Clean(tokens[1..]);
      if t != "" then [t] + rest else rest
  }

  /** Cleaning comma-free tokens leaves comma-free tokens. */
  lemma {:induction false} CleanNoComma(tokens: seq<string>)
    requires forall i :: 0 <= i < |tokens| ==> ',' !in tokens[i]
    ensures forall i :: 0 <= i < |Clean(tokens)| ==> ',' !in Clean(tokens)[i]
    decreases |tokens|
  {
    if |tokens| > 0 {
      StripKeepsOut(tokens[0], ',');
      CleanNoComma(tokens[1..]);
    }
  }

  /** `as_list_of_strings`: a string is split on commas, each piece is
      stripped and blank pieces are dropped; a list is returned as it is. */
  function AsListOfStrings(l: ListOfStrings): (r: seq<string>)
    ensures l.Str? ==> forall i :: 0 <= i < |r| ==> IsCleanToken(r[i])
    ensures l.Str? ==> |r| <= multiset(l.text)[','] + 1
    ensures l.List? ==> r == l.items
  {
    match l
    case Str(s) =>
      SplitPieces(s, ',');
      CleanNoComma(Split(s, ','));
      Clean(Split(s, ','))
    case List(items) => items
  }

  /** Every token stripped, blank ones kept: the material `Clean` filters. */
  function Stripped(tokens: seq<string>): (r: seq<string>)
    ensures |r| == |tokens|
    ensures forall i :: 0 <= i < |r| ==> r[i] == Strip(tokens[i])
  {
    seq(|tokens|, i requires 0 <= i < |tokens| => Strip(tokens[i]))
  }

  /** `a` is `b` with some elements deleted, the rest kept in order. */
  ghost predicate Subsequence(a: seq<string>, b: seq<string>)
    decreases |b|
  {
    if |a| == 0 then true
    else if |b| == 0 then false
    else (a[0] == b[0] && Subsequence(a[1..], b[1..])) || Subsequence(a, b[1..])
  }

  /** Cleaning keeps the stripped tokens in their original order and drops
      exactly the blank ones: the result is a subsequence of the stripped
      tokens, one element shorter for every blank token. */
  lemma {:induction false} CleanKeepsOrder(tokens: seq<string>)
    ensures Subsequence(Clean(tokens), Stripped(tokens))
    ensures |Clean(tokens)| == |tokens| - multiset(Stripped(tokens))[""]
    decreases |tokens|
  {
    if |tokens| > 0 {
      CleanKeepsOrder(tokens[1..]);
      var s := Stripped(tokens);
      assert s[1..] == Stripped(tokens[1..]);
      HeadTail(s);
    }
  }

  /** For a string argument, the result lists the non-blank comma-separated
      pieces of the string, stripped, in their left-to-right order. */
  lemma StringOrderKept(s: string)
    ensures Subsequence(AsListOfStrings(Str(s)), Stripped(Split(s, ',')))
    ensures |AsListOfStrings(Str(s))| == |Split(s, ',')| - multiset(Stripped(Split(s, ',')))[""]
  {
    CleanKeepsOrder(Split(s, ','));
  }

  /** Cleaning a list of clean tokens changes nothing. */
  lemma {:induction false} CleanOfClean(tokens: seq<string>)
    requires forall i :: 0 <= i < |tokens| ==> IsCleanToken(tokens[i])
    ensures Clean(tokens) == tokens
    decreases |tokens|
  {
    if |tokens| > 0 {
      StripTrimmed(tokens[0]);
      CleanOfClean(tokens[1..]);
      HeadTail(tokens);
    }
  }

  /** A list of clean tokens survives a trip through its comma-joined text:
      parsing `",".join(tokens)` gives the tokens back. */
  lemma CleanTokensRoundTrip(tokens: seq<string>)
    requires forall i :: 0 <= i < |tokens| ==> IsCleanToken(tokens[i])
    ensures AsListOfStrings(Str(Join(tokens, ","))) == tokens
  {
    if |tokens| == 0 {
      assert Split("", ',') == [""];
      assert Strip("") == "";
    } else {
      SplitJoin(tokens, ',');
      CleanOfClean(tokens);
    }
  }

  /** Normalisation is idempotent on strings: re-parsing the comma-join of a
      normalised string yields the same list. */
  lemma StringIdempotent(s: string)
    ensures AsListOfStrings(Str(Join(AsListOfStrings(Str(s)), ","))) == AsListOfStrings(Str(s))
  {
    CleanTokensRoundTrip(AsListOfStrings(Str(s)));
  }

  /** Parsing distributes over a comma: the values of `a,b` are those of `a`
      followed by those of `b`. */
  lemma {:induction false} ValuesOfJoined(a: string, b: string)
    ensures AsListOfStrings(Str(a + "," + b)) == AsListOfStrings(Str(a)) + AsListOfStrings(Str(b))
  {
    SplitAppend(a, ',', b);
    CleanAppend(Split(a, ','), Split(b, ','));
  }

  /** Cleaning distributes over concatenation. */
  lemma {:induction false} CleanAppend(x: seq<string>, y: seq<string>)
    ensures Clean(x + y) == Clean(x) + Clean(y)
    decreases |x|
  {
    if |x| == 0 {
      assert x + y == y;
    } else {
      assert (x + y)[1..] == x[1..] + y;
      CleanAppend(x[1..], y);
    }
  }
}
