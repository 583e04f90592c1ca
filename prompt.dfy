/** The prompt that query_with_context.py prints for the user to paste into a chat (lines 16-19):
    a fixed preamble, one numbered block per retrieved chunk in rank order, and the question.
    The retrieved chunks are an input here; the vector search that produces them is not part of
    this model. */
module Prompt {

  const Preamble: string := "You are an expert. Use the following information to answer the user's question.\n\n"

  // ---------------------------------------------------------------------------------------------
  // Decimal numerals, as the f-string prints an int

  predicate IsDigit(c: char) {
    '0' <= c <= '9'
  }

  function DigitChar(d: nat): (c: char)
    requires d < 10
    ensures IsDigit(c)
  {
    (('0' as int) + d) as char
  }

  function DigitValue(c: char): (d: nat)
    requires IsDigit(c)
    ensures d < 10
  {
    (c as int) - ('0' as int)
  }

  /** str(n): the decimal digits of n, most significant first, with no leading zero. */
  function Decimal(n: nat): (r: string)
    ensures 0 < |r| && forall k | 0 <= k < |r| :: IsDigit(r[k])
    ensures r[0] == '0' ==> n == 0 && r == "0"
    decreases n
  {
    if n < 10 then [DigitChar(n)] else Decimal(n / 10) + [DigitChar(n % 10)]
  }

  /** int(s) for a string of digits. */
  function ParseDecimal(s: string): nat
    requires forall k | 0 <= k < |s| :: IsDigit(s[k])
    decreases |s|
  {
    if s == [] then 0 else ParseDecimal(s[..|s| - 1]) * 10 + DigitValue(s[|s| - 1])
  }

  /** Reading back the numeral gives the number: the block labels carry exactly i + 1. */
  lemma {:induction false} DecimalRoundTrip(n: nat)
    ensures ParseDecimal(Decimal(n)) == n
    decreases n
  {
    var r := Decimal(n);
    if n < 10 {
      assert r[..0] == [];
    } else {
      DecimalRoundTrip(n / 10);
      assert r[..|r| - 1] == Decimal(n / 10);
    }
  }

  // ---------------------------------------------------------------------------------------------
  // The prompt

  /** The block for the result at 0-based position i. */
  function SourceBlock(i: nat, content: string): string {
    "[Source " + Decimal(i + 1) + "]\n" + content + "\n\n"
  }

  /** The blocks of results, the first numbered as position `start`. */
  function Blocks(results: seq<string>, start: nat): string
    decreases |results|
  {
    if results == [] then "" else SourceBlock(start, results[0]) + Blocks(results[1..], start + 1)
  }

  function Question(query: string): string {
    "User's question: " + query + "\n\nAnswer:"
  }

  /** The whole prompt: preamble, blocks, question. */
  function Render(results: seq<string>, query: string): string {
    Preamble + Blocks(results, 0) + Question(query)
  }

  /** Appending one result appends its block, numbered after the others. */
  lemma {:induction false} BlocksSnoc(results: seq<string>, x: string, start: nat)
    ensures Blocks(results + [x], start) == Blocks(results, start) + SourceBlock(start + |results|, x)
    decreases |results|
  {
    if results == [] {
      assert [x][1..] == [];
      var b := SourceBlock(start, x);
      assert b + "" == b;
    } else {
      assert (results + [x])[1..] == results[1..] + [x];
      BlocksSnoc(results[1..], x, start + 1);
      var h, t, l := SourceBlock(start, results[0]), Blocks(results[1..], start + 1), SourceBlock(start + |results|, x);
      assert h + (t + l) == h + t + l;
    }
  }

  /** Splitting the results splits the blocks, and the numbering carries on across the cut. */
  lemma {:induction false} BlocksAppend(a: seq<string>, b: seq<string>, start: nat)
    ensures Blocks(a + b, start) == Blocks(a, start) + Blocks(b, start + |a|)
    decreases |a|
  {
    if a == [] {
      assert a + b == b;
      var bb := Blocks(b, start);
      assert "" + bb == bb;
    } else {
      assert (a + b)[1..] == a[1..] + b;
      BlocksAppend(a[1..], b, start + 1);
      var h, t, u := SourceBlock(start, a[0]), Blocks(a[1..], start + 1), Blocks(b, start + |a|);
      assert h + (t + u) == h + t + u;
    }
  }

  /** The result at every position i appears, in rank order, as the block labelled i + 1: the
      prompt is the preamble, the blocks of the results before i, block i, the blocks of the
      results after i, and the question. */
  lemma BlockAt(results: seq<string>, query: string, i: nat)
    requires i < |results|
    ensures Render(results, query) ==
      Preamble + Blocks(results[..i], 0) + SourceBlock(i, results[i]) + Blocks(results[i + 1..], i + 1) + Question(query)
  {
    var before, x, after := results[..i], results[i], results[i + 1..];
    var bb, sb, ab := Blocks(before, 0), SourceBlock(i, x), Blocks(after, i + 1);
    BlocksMiddle(results, i);
    assert Blocks(results, 0) == bb + sb + ab;
    Regroup(Preamble, bb, sb, ab, Question(query));
  }

  /** The blocks of all results, cut at position j. */
  lemma BlocksCut(results: seq<string>, j: nat)
    requires j <= |results|
    ensures Blocks(results, 0) == Blocks(results[..j], 0) + Blocks(results[j..], j)
  {
    var a, b := results[..j], results[j..];
    assert results == a + b;
    BlocksAppend(a, b, 0);
  }

  /** The blocks of all results, cut around position i. */
  lemma BlocksMiddle(results: seq<string>, i: nat)
    requires i < |results|
    ensures Blocks(results, 0) == Blocks(results[..i], 0) + SourceBlock(i, results[i]) + Blocks(results[i + 1..], i + 1)
  {
    var before, x, upto := results[..i], results[i], results[..i + 1];
    BlocksCut(results, i + 1);
    assert upto == before + [x];
    BlocksSnoc(before, x, 0);
  }

  lemma Regroup(p: string, a: string, b: string, c: string, q: string)
    ensures p + (a + b + c) + q == p + a + b + c + q
  {
  }

  /** The prompt opens with the preamble and closes with the question; with no results the two
      meet. */
  lemma RenderShape(results: seq<string>, query: string)
    ensures Preamble <= Render(results, query)
    ensures var r, q := Render(results, query), Question(query);
      |q| <= |r| && r[|r| - |q|..] == q
    ensures results == [] ==> Render(results, query) == Preamble + Question(query)
  {
    var p, b, q := Preamble, Blocks(results, 0), Question(query);
    var r := p + b + q;
    assert r[..|p|] == p;
    assert r[|r| - |q|..] == q;
    if results == [] {
      assert p + "" == p;
    }
  }

  /** Lines 16-19: the prompt is built by appending to a string. */
  method BuildPrompt(results: seq<string>, query: string) returns (prompt: string)
    ensures prompt == Render(results, query)
  {
    prompt := Preamble;
    for i := 0 to |results|
      invariant prompt == Preamble + Blocks(results[..i], 0)
    {
      var block := "[Source " + Decimal(i + 1) + "]\n" + results[i] + "\n\n";
      assert results[..i + 1] == results[..i] + [results[i]];
      BlocksSnoc(results[..i], results[i], 0);
      prompt := prompt + block;
    }
    assert results[..|results|] == results;
    prompt := prompt + ("User's question: " + query + "\n\nAnswer:");
  }
}
