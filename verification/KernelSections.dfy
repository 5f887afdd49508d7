/** Finding where a kernel's text ends by matching braces, and putting a patched section back. */
module KernelSections {

  predicate IsBrace(c: char) {
    c == '{' || c == '}'
  }

  /** Braces opened minus braces closed from b up to e. */
  function Depth(text: string, b: nat, e: nat): int
    requires b <= e <= |text|
  {
    if e == b then 0
    else Depth(text, b, e - 1) + (if text[e - 1] == '{' then 1 else if text[e - 1] == '}' then -1 else 0)
  }

  /** The braces opened since b are balanced for the first time right before e. */
  predicate Closes(text: string, b: nat, e: nat) {
    b < e <= |text| && text[e - 1] == '}' && Depth(text, b, e) == 0 &&
    (forall k :: b <= k < e ==> Depth(text, b, k) >= 0) &&
    (forall k :: b <= k < e - 1 && text[k] == '}' ==> Depth(text, b, k + 1) > 0)
  }

  /** There is only one such place. */
  lemma ClosesUnique(text: string, b: nat, e: nat, e': nat)
    requires Closes(text, b, e) && Closes(text, b, e')
    ensures e == e'
  {
  }

  /** Scans from the header for the end of the section. A text whose braces never balance from there on is outside
      what the original handles: it would run off the text or pop an empty stack. */
  method SectionEnd(text: string, b: nat) returns (e: nat)
    requires exists k :: Closes(text, b, k)
    ensures Closes(text, b, e)
  {
    ghost var goal: nat :| Closes(text, b, goal);
    var stack: seq<char> := [];
    var idx := b;
    var first := true;
    while first || stack != []
      invariant b <= idx <= goal && |stack| == Depth(text, b, idx)
      invariant first ==> idx == b
      invariant forall k :: b <= k < idx - 1 && text[k] == '}' ==> Depth(text, b, k + 1) > 0
      invariant forall k :: b <= k < idx ==> Depth(text, b, k) >= 0
      invariant !first ==> idx > b && IsBrace(text[idx - 1])
      invariant !first && stack == [] ==> idx == goal
      invariant stack != [] || first ==> idx < goal
      decreases goal - idx
    {
      first := false;
      ghost var from := idx;
      while text[idx] != '{' && text[idx] != '}'
        invariant from <= idx < goal && Depth(text, b, idx) == |stack|
        invariant forall k :: from <= k <= idx ==> Depth(text, b, k) == |stack|
        invariant forall k :: from <= k < idx ==> text[k] != '}'
        decreases goal - idx
      {
        idx := idx + 1;
        assert Depth(text, b, idx) == |stack|;
      }
      assert Depth(text, b, idx + 1) == |stack| + (if text[idx] == '{' then 1 else -1);
      if text[idx] == '{' {
        stack := stack + ['{'];
      } else {
        stack := stack[..|stack| - 1];
      }
      idx := idx + 1;
    }
    e := idx;
  }

  // ---------------------------------------------------------------- text with blocks

  /** Text in which blocks nest: characters other than braces, and blocks in braces. */
  datatype Text = End | Plain(c: char, rest: Text) | Block(inner: Text, rest: Text)

  function Render(t: Text): string {
    match t
    case End => ""
    case Plain(c, rest) => [c] + Render(rest)
    case Block(inner, rest) => "{" + Render(inner) + "}" + Render(rest)
  }

  /** Plain characters are not braces. */
  predicate Proper(t: Text) {
    match t
    case End => true
    case Plain(c, rest) => c != '{' && c != '}' && Proper(rest)
    case Block(inner, rest) => Proper(inner) && Proper(rest)
  }

  lemma {:induction false} DepthAdds(text: string, b: nat, m: nat, e: nat)
    requires b <= m <= e <= |text|
    ensures Depth(text, b, e) == Depth(text, b, m) + Depth(text, m, e)
    decreases e
  {
    if e > m { DepthAdds(text, b, m, e - 1); }
  }

  /** The text stands in another from b on. */
  predicate At(text: string, b: nat, s: string) {
    b + |s| <= |text| && text[b..b + |s|] == s
  }

  lemma AtParts(text: string, b: nat, s: string, t: string)
    requires At(text, b, s + t)
    ensures At(text, b, s) && At(text, b + |s|, t)
  {
    assert text[b..b + |s + t|][..|s|] == text[b..b + |s|];
    assert text[b..b + |s + t|][|s|..] == text[b + |s|..b + |s| + |t|];
  }

  lemma AtOne(text: string, b: nat, c: char)
    requires At(text, b, [c])
    ensures b < |text| && text[b] == c
  {
    assert text[b..b + 1][0] == c;
  }

  lemma OneDeep(text: string, b: nat)
    requires b < |text|
    ensures Depth(text, b, b) == 0
    ensures Depth(text, b, b + 1) == if text[b] == '{' then 1 else if text[b] == '}' then -1 else 0
  {
  }

  /** Blocks open as often as they close, and never close first. */
  lemma {:induction false} BlocksBalance(text: string, b: nat, t: Text)
    requires Proper(t) && At(text, b, Render(t))
    ensures Depth(text, b, b + |Render(t)|) == 0
    ensures forall k :: b <= k <= b + |Render(t)| ==> Depth(text, b, k) >= 0
    decreases t, 0
  {
    hide Depth;
    var e := b + |Render(t)|;
    match t
    case End =>
      NoDepth(text, b);
    case Plain(c, rest) =>
      AtParts(text, b, [c], Render(rest));
      AtOne(text, b, c);
      OneDeep(text, b);
      BlocksBalance(text, b + 1, rest);
      forall k | b <= k <= e
        ensures Depth(text, b, k) >= 0 && (k == e ==> Depth(text, b, k) == 0)
      {
        if k > b { DepthAdds(text, b, b + 1, k); }
      }
    case Block(inner, rest) =>
      var m := b + 1 + |Render(inner)|;
      BlockBalances(text, b, inner, Render(rest));
      AtRest(text, b, inner, Render(rest));
      BlocksBalance(text, m + 1, rest);
      forall k | b <= k <= e
        ensures Depth(text, b, k) >= 0 && (k == e ==> Depth(text, b, k) == 0)
      {
        if k > m + 1 { DepthAdds(text, b, m + 1, k); }
      }
  }

  lemma NoDepth(text: string, b: nat)
    requires b <= |text|
    ensures Depth(text, b, b) == 0
  {
  }

  lemma AtRest(text: string, b: nat, inner: Text, rest: string)
    requires At(text, b, "{" + Render(inner) + "}" + rest)
    ensures var m := b + 1 + |Render(inner)|;
            At(text, b + 1, Render(inner)) && At(text, m + 1, rest) && text[b] == '{' && m < |text| && text[m] == '}'
  {
    AtParts(text, b, "{" + Render(inner) + "}", rest);
    AtParts(text, b, "{" + Render(inner), "}");
    AtParts(text, b, "{", Render(inner));
    AtOne(text, b, '{');
    AtOne(text, b + 1 + |Render(inner)|, '}');
  }

  /** Inside a block the depth is at least one; behind it, zero. */
  lemma {:induction false} BlockBalances(text: string, b: nat, inner: Text, rest: string)
    requires Proper(inner) && At(text, b, "{" + Render(inner) + "}" + rest)
    ensures var m := b + 1 + |Render(inner)|;
            m < |text| && Depth(text, b, b) == 0 && Depth(text, b, m + 1) == 0 &&
            forall k :: b < k <= m ==> Depth(text, b, k) > 0
    decreases inner, 1
  {
    hide Depth;
    AtRest(text, b, inner, rest);
    BlocksBalance(text, b + 1, inner);
    var m := b + 1 + |Render(inner)|;
    OneDeep(text, b);
    OneDeep(text, m);
    forall k | b < k <= m
      ensures Depth(text, b, k) > 0
    {
      DepthAdds(text, b, b + 1, k);
    }
    DepthAdds(text, b, b + 1, m);
    DepthAdds(text, b, m, m + 1);
  }

  /** A kernel is found whole: from a header without braces, the section ends right behind the block that follows,
      whatever blocks are nested in it. */
  lemma BlockCloses(text: string, b: nat, header: string, inner: Text, rest: string)
    requires Proper(inner) && '{' !in header && '}' !in header
    requires At(text, b, header + ("{" + Render(inner) + "}" + rest))
    ensures Closes(text, b, b + |header| + |Render(inner)| + 2)
  {
    hide Depth;
    var h, m := b + |header|, b + |header| + 1 + |Render(inner)|;
    AtParts(text, b, header, "{" + Render(inner) + "}" + rest);
    AtRest(text, h, inner, rest);
    BlockBalances(text, h, inner, rest);
    forall k | b <= k <= h
      ensures Depth(text, b, k) == 0 && (k < h ==> text[k] != '}')
    {
      FlatHeader(text, b, header, k);
      if k < h { assert text[k] == text[b..h][k - b] == header[k - b]; }
    }
    forall k | h <= k <= m + 1
      ensures Depth(text, b, k) == Depth(text, h, k)
    {
      DepthAdds(text, b, h, k);
    }
    forall k | b <= k < m && text[k] == '}'
      ensures Depth(text, b, k + 1) > 0
    {
      assert h <= k;
    }
  }

  lemma {:induction false} FlatHeader(text: string, b: nat, header: string, k: nat)
    requires At(text, b, header) && '{' !in header && '}' !in header && b <= k <= b + |header|
    ensures Depth(text, b, k) == 0
    decreases k
  {
    if k > b {
      FlatHeader(text, b, header, k - 1);
      assert text[b..b + |header|][k - 1 - b] == header[k - 1 - b];
    }
  }

  /** The patched section in place of the old one, with the compiled probe function in front of everything. */
  function Patched(text: string, b: nat, e: nat, section: string, probe: string): string
    requires b <= e <= |text|
  {
    probe + "\n" + text[..b] + section + text[e..]
  }

  /** The patched text in order: the probe, a line feed, what was in front, the new section, what was behind. */
  lemma PatchedSlices(text: string, b: nat, e: nat, section: string, probe: string)
    requires b <= e <= |text|
    ensures var r, n, m := Patched(text, b, e, section, probe), |probe|, |section|;
            |r| == n + 1 + b + m + (|text| - e) && r[..n] == probe && r[n] == '\n' &&
            r[n + 1..n + 1 + b] == text[..b] &&
            r[n + 1 + b..n + 1 + b + m] == section && r[n + 1 + b + m..] == text[e..]
  {
  }

  lemma {:induction false} DepthMoves(text: string, text': string, b: nat, e: nat, d: int, k: nat)
    requires b <= k <= e <= |text| && 0 <= b + d && e + d <= |text'|
    requires forall i :: b <= i < e ==> text[i] == text'[i + d]
    ensures Depth(text', b + d, k + d) == Depth(text, b, k)
    decreases k
  {
    if k > b { DepthMoves(text, text', b, e, d, k - 1); }
  }

  /** Where a section ends depends on nothing outside it. */
  lemma ClosesMoves(text: string, text': string, b: nat, e: nat, d: int)
    requires Closes(text, b, e) && 0 <= b + d && e + d <= |text'|
    requires forall i :: b <= i < e ==> text[i] == text'[i + d]
    ensures Closes(text', b + d, e + d)
  {
    forall k | b <= k <= e
      ensures Depth(text', b + d, k + d) == Depth(text, b, k)
    {
      DepthMoves(text, text', b, e, d, k);
    }
    assert text'[e - 1 + d] == text[e - 1];
    var b' := b + d;
    forall k | b' <= k < e + d
      ensures Depth(text', b', k) >= 0
    {
      assert Depth(text', b + d, (k - d) + d) == Depth(text, b, k - d);
    }
    forall k | b + d <= k < e + d - 1 && text'[k] == '}'
      ensures Depth(text', b + d, k + 1) > 0
    {
      assert text[k - d] == text'[k - d + d];
      assert Depth(text', b + d, (k + 1 - d) + d) == Depth(text, b, k + 1 - d);
    }
  }

  /** Patching one kernel leaves every other kernel of the text whole: its section is found again, only moved, and
      holds the same text. */
  lemma OthersUntouched(text: string, b: nat, e: nat, section: string, probe: string, b': nat, e': nat)
    requires Closes(text, b, e) && Closes(text, b', e') && (e' <= b || e <= b')
    ensures var text' := Patched(text, b, e, section, probe);
            var d := |probe| + 1 + (if e' <= b then 0 else |section| - (e - b));
            0 <= b' + d && e' + d <= |text'| && Closes(text', b' + d, e' + d) && text'[b' + d..e' + d] == text[b'..e']
  {
    var text' := Patched(text, b, e, section, probe);
    var d := |probe| + 1 + (if e' <= b then 0 else |section| - (e - b));
    assert forall i :: b' <= i < e' ==> text[i] == text'[i + d];
    ClosesMoves(text, text', b', e', d);
  }
}
