/** The signature decipherer (k.mjs:136-174): a left fold of action tokens over the
    signature held as a character array, joined back into a string at the end.

    The array is a sequence of slots: `None` is a hole or an `undefined` entry.
    Holes only arise from a `w<N>` token with N at or past the end, because
    `swapHeadAndPosition` reads `arr[position % arr.length]` but writes
    `arr[position]`, which grows the array; `join('')` turns holes into "". */
module Decipher {
  import opened Wrappers
  import opened Numbers

  type Slot = Option<char>

  /** `sig.split('')`. */
  function Lift(s: string): (r: seq<Slot>)
    ensures |r| == |s|
    ensures forall i :: 0 <= i < |s| ==> r[i] == Some(s[i])
  {
    seq(|s|, i requires 0 <= i < |s| => Some(s[i]))
  }

  /** `arr.join('')`: holes and `undefined` entries contribute nothing. */
  function Join(arr: seq<Slot>): string {
    if arr == [] then ""
    else (match arr[0] case Some(c) => [c] case None => "") + Join(arr[1..])
  }

  predicate NoHoles(arr: seq<Slot>) {
    forall i :: 0 <= i < |arr| ==> arr[i].Some?
  }

  lemma {:induction false} JoinLift(s: string)
    ensures Join(Lift(s)) == s
    decreases |s|
  {
    if s != "" {
      assert Lift(s)[1..] == Lift(s[1..]);
      JoinLift(s[1..]);
    }
  }

  lemma {:induction false} LiftJoin(arr: seq<Slot>)
    requires NoHoles(arr)
    ensures Lift(Join(arr)) == arr
    decreases |arr|
  {
    if arr != [] {
      LiftJoin(arr[1..]);
      assert Join(arr) == [arr[0].value] + Join(arr[1..]);
    }
  }

  /** `arr[i]` read as a slot: past the end it is `undefined`. */
  function At(arr: seq<Slot>, i: nat): Slot {
    if i < |arr| then arr[i] else None
  }

  function Holes(n: nat): (r: seq<Slot>)
    ensures |r| == n && forall i :: 0 <= i < n ==> r[i] == None
  {
    seq(n, i => None)
  }

  /** `arr[i] = x`: writing past the end grows the array, leaving holes between. */
  function Put(arr: seq<Slot>, i: nat, x: Slot): (r: seq<Slot>)
    ensures |r| == if i < |arr| then |arr| else i + 1
    ensures r[i] == x
    ensures forall j :: 0 <= j < |r| && j != i ==> r[j] == At(arr, j)
  {
    if i < |arr| then arr[i := x] else arr + Holes(i - |arr|) + [x]
  }

  /** What `swapHeadAndPosition(arr, position)` leaves in `arr`. Within range the
      head and the element at `position` change places and nothing else moves.
      Past the end the head is overwritten with `arr[position % length]` and a
      copy of the old head lands at `position`, with holes in between. On an
      empty array `position % 0` is NaN, so the head becomes `undefined`. */
  function SwapHead(arr: seq<Slot>, position: nat): (r: seq<Slot>)
    ensures position < |arr| ==> |r| == |arr| && r[0] == arr[position] && r[position] == arr[0]
    ensures position < |arr| ==> forall j :: 0 < j < |arr| && j != position ==> r[j] == arr[j]
    ensures |arr| <= position ==> |r| == position + 1 && r[position] == At(arr, 0)
    ensures 0 < |arr| <= position ==> r[0] == arr[position % |arr|]
    ensures |arr| <= position ==> forall j :: 0 < j < position ==> r[j] == At(arr, j)
  {
    var head := if |arr| == 0 then None else At(arr, position % |arr|);
    if position < |arr| then
      SwapWithin(arr, position);
      Put(Put(arr, 0, head), position, At(arr, 0))
    else
      SwapBeyond(arr, position);
      Put(Put(arr, 0, head), position, At(arr, 0))
  }

  /** The two writes of a swap within range exchange two slots. */
  lemma SwapWithin(arr: seq<Slot>, position: nat)
    requires position < |arr|
    ensures var r := Put(Put(arr, 0, arr[position % |arr|]), position, arr[0]);
      && |r| == |arr| && r[0] == arr[position] && r[position] == arr[0]
      && forall j :: 0 < j < |arr| && j != position ==> r[j] == arr[j]
  {
    assert position % |arr| == position;
    assert Put(arr, 0, arr[position]) == arr[0 := arr[position]];
  }

  /** The two writes of a swap past the end: the head is overwritten, a copy of
      the old head lands at `position`, and the slots in between keep what they
      held (holes past the old end). */
  lemma SwapBeyond(arr: seq<Slot>, position: nat)
    requires |arr| <= position
    ensures var head := if |arr| == 0 then None else At(arr, position % |arr|);
      var r := Put(Put(arr, 0, head), position, At(arr, 0));
      && |r| == position + 1 && r[position] == At(arr, 0)
      && (0 < |arr| ==> r[0] == arr[position % |arr|])
      && forall j :: 0 < j < position ==> r[j] == At(arr, j)
  {
    var head := if |arr| == 0 then None else At(arr, position % |arr|);
    var moved := Put(arr, 0, head);
    forall j | 0 < j < position
      ensures Put(moved, position, At(arr, 0))[j] == At(arr, j)
    {
      assert At(moved, j) == At(arr, j);
    }
  }

  /** Every filled slot after a swap is a slot the array held before. */
  lemma SwapHeadSlots(arr: seq<Slot>, position: nat)
    ensures forall j :: 0 <= j < |SwapHead(arr, position)| && SwapHead(arr, position)[j].Some? ==>
      SwapHead(arr, position)[j] in arr
  {
    var head := if |arr| == 0 then None else At(arr, position % |arr|);
    PutSlots(arr, 0, head, arr);
    PutSlots(Put(arr, 0, head), position, At(arr, 0), arr);
  }

  /** Writing a slot taken from `src` into an array whose filled slots all come
      from `src` keeps that so. */
  lemma PutSlots(arr: seq<Slot>, i: nat, x: Slot, src: seq<Slot>)
    requires forall j :: 0 <= j < |arr| && arr[j].Some? ==> arr[j] in src
    requires x.Some? ==> x in src
    ensures forall j :: 0 <= j < |Put(arr, i, x)| && Put(arr, i, x)[j].Some? ==> Put(arr, i, x)[j] in src
  {
  }

  /** `swapHeadAndPosition` (k.mjs:169-174), statement by statement: it leaves in
      the array what `SwapHead` states. */
  method SwapHeadAndPosition(arr: seq<Slot>, position: nat) returns (r: seq<Slot>)
    ensures r == SwapHead(arr, position)
  {
    r := arr;
    var first := At(r, 0);
    r := Put(r, 0, if |r| == 0 then None else At(r, position % |r|));
    r := Put(r, position, first);
  }

  /** Swapping within range twice restores the array. */
  lemma SwapHeadInvolution(arr: seq<Slot>, position: nat)
    requires position < |arr|
    ensures SwapHead(SwapHead(arr, position), position) == arr
  {
    var once := SwapHead(arr, position);
    var twice := SwapHead(once, position);
    assert forall j :: 0 <= j < |arr| ==> twice[j] == arr[j];
  }

  /** `arr.reverse()`. */
  function Reverse<T>(arr: seq<T>): (r: seq<T>)
    ensures |r| == |arr|
    ensures forall i :: 0 <= i < |arr| ==> r[i] == arr[|arr| - 1 - i]
  {
    if arr == [] then [] else Reverse(arr[1..]) + [arr[0]]
  }

  lemma ReverseInvolution<T>(arr: seq<T>)
    ensures Reverse(Reverse(arr)) == arr
  {
  }

  /** `arr.slice(start)`: a suffix of the array, all but the first `start`
      elements, or for a negative start the last `-start` ones. */
  function SliceFrom(arr: seq<Slot>, start: int): (r: seq<Slot>)
    ensures |r| <= |arr| && r == arr[|arr| - |r|..]
    ensures start >= 0 ==> |r| == if start < |arr| then |arr| - start else 0
    ensures start < 0 ==> |r| == if -start < |arr| then -start else |arr|
  {
    var k := if start < 0 then (if |arr| + start < 0 then 0 else |arr| + start)
             else if start < |arr| then start else |arr|;
    arr[k..]
  }

  /** `arr.splice(0, deleteCount)`, keeping what is left in `arr`: the count is
      clamped to the range 0..length. */
  function SpliceHead(arr: seq<Slot>, deleteCount: int): (r: seq<Slot>)
    ensures |r| <= |arr| && r == arr[|arr| - |r|..]
    ensures |r| == if deleteCount <= 0 then |arr| else if deleteCount < |arr| then |arr| - deleteCount else 0
  {
    var k := if deleteCount < 0 then 0 else if deleteCount < |arr| then deleteCount else |arr|;
    arr[..0] + arr[k..]
  }

  /** For a non-negative count the slice of `s<N>` and the in-place splice of `p<N>`
      both drop the first min(N, length) characters. */
  lemma SliceAgreesWithSplice(arr: seq<Slot>, n: nat)
    ensures SliceFrom(arr, n) == SpliceHead(arr, n)
    ensures SliceFrom(arr, n) == arr[if n < |arr| then n else |arr|..]
    ensures |SliceFrom(arr, n)| == if n < |arr| then |arr| - n else 0
  {
  }

  /** Tokens the model reads: a `w`, `s` or `p` tag followed by a decimal number
      below 2^31, so `~~token.slice(1)` is that number; any other first character,
      or the empty token, is skipped whatever follows. */
  predicate WellFormedToken(token: string) {
    token == "" || token[0] !in "wsp" || (AllDigits(token[1..]) && DecimalValue(token[1..]) < 0x8000_0000)
  }

  predicate WellFormedTokens(tokens: seq<string>) {
    forall i :: 0 <= i < |tokens| ==> WellFormedToken(tokens[i])
  }

  /** `~~token.slice(1)` for a well-formed token. */
  function Position(token: string): nat
    requires token != "" && token[0] in "wsp" && WellFormedToken(token)
  {
    DecimalValue(token[1..])
  }

  /** The effect of one token (one pass of the `switch` at k.mjs:140-156): an
      ignored token changes nothing, only a swap can lengthen the array, and
      every filled slot afterwards is a slot the array held before. */
  function Step(token: string, arr: seq<Slot>): (r: seq<Slot>)
    requires WellFormedToken(token)
    ensures Ignored(token) ==> r == arr
    ensures (token == "" || token[0] != 'w') ==> |r| <= |arr|
    ensures forall j :: 0 <= j < |r| && r[j].Some? ==> r[j] in arr
  {
    if token == "" then arr
    else if token[0] == 'r' then Reverse(arr)
    else if token[0] == 'w' then
      SwapHeadSlots(arr, Position(token));
      SwapHead(arr, Position(token))
    else if token[0] == 's' then SliceFrom(arr, Position(token))
    else if token[0] == 'p' then SpliceHead(arr, Position(token))
    else arr
  }

  /** The tokens applied in order, first token first. */
  function Run(tokens: seq<string>, arr: seq<Slot>): seq<Slot>
    requires WellFormedTokens(tokens)
    decreases |tokens|
  {
    if tokens == [] then arr
    else Step(tokens[|tokens| - 1], Run(tokens[..|tokens| - 1], arr))
  }

  /** What `decipher(tokens, sig)` returns: a text made only of characters of the
      signature. */
  function Deciphered(tokens: seq<string>, sig: string): (r: string)
    requires WellFormedTokens(tokens)
    ensures forall i :: 0 <= i < |r| ==> r[i] in sig
  {
    RunSlotsFrom(tokens, Lift(sig));
    JoinFrom(Run(tokens, Lift(sig)));
    LiftSlots(sig);
    Join(Run(tokens, Lift(sig)))
  }

  /** Every filled slot after running the tokens is a slot of the starting array. */
  lemma {:induction false} RunSlotsFrom(tokens: seq<string>, arr: seq<Slot>)
    requires WellFormedTokens(tokens)
    ensures forall j :: 0 <= j < |Run(tokens, arr)| && Run(tokens, arr)[j].Some? ==> Run(tokens, arr)[j] in arr
    decreases |tokens|
  {
    if tokens != [] {
      RunSlotsFrom(tokens[..|tokens| - 1], arr);
    }
  }

  /** Every character of a join comes from a filled slot. */
  lemma {:induction false} JoinFrom(arr: seq<Slot>)
    ensures forall i :: 0 <= i < |Join(arr)| ==> Some(Join(arr)[i]) in arr
    decreases |arr|
  {
    if arr != [] {
      JoinFrom(arr[1..]);
      var head := match arr[0] case Some(c) => [c] case None => "";
      assert Join(arr) == head + Join(arr[1..]);
      forall i | 0 <= i < |Join(arr)| ensures Some(Join(arr)[i]) in arr {
        if i >= |head| {
          assert Join(arr)[i] == Join(arr[1..])[i - |head|];
          assert Some(Join(arr)[i]) in arr[1..];
        }
      }
    }
  }

  /** The filled slots of a split signature hold its characters. */
  lemma LiftSlots(s: string)
    ensures forall c :: Some(c) in Lift(s) ==> c in s
  {
  }

  /** `decipher` (k.mjs:136-159), one token per loop pass. */
  method Decipher(tokens: seq<string>, sig: string) returns (r: string)
    requires WellFormedTokens(tokens)
    ensures r == Deciphered(tokens, sig)
  {
    var arr := Lift(sig);
    var i := 0;
    while i < |tokens|
      invariant 0 <= i <= |tokens|
      invariant arr == Run(tokens[..i], Lift(sig))
    {
      var token := tokens[i];
      assert tokens[..i + 1][..i] == tokens[..i];
      if token != "" {
        match token[0]
        case 'r' =>
          arr := Reverse(arr);
        case 'w' =>
          arr := SwapHeadAndPosition(arr, Position(token));
        case 's' =>
          arr := SliceFrom(arr, Position(token));
        case 'p' =>
          arr := SpliceHead(arr, Position(token));
        case _ =>
      }
      i := i + 1;
    }
    assert tokens[..i] == tokens;
    r := Join(arr);
  }

  /** No tokens: the signature comes back unchanged. */
  lemma DecipherNothing(sig: string)
    ensures Deciphered([], sig) == sig
  {
    JoinLift(sig);
  }

  /** Running two token lists one after the other is running their concatenation. */
  lemma {:induction false} RunAppend(t1: seq<string>, t2: seq<string>, arr: seq<Slot>)
    requires WellFormedTokens(t1) && WellFormedTokens(t2)
    ensures WellFormedTokens(t1 + t2)
    ensures Run(t1 + t2, arr) == Run(t2, Run(t1, arr))
    decreases |t2|
  {
    if t2 == [] {
      assert t1 + t2 == t1;
    } else {
      var n := |t2| - 1;
      assert (t1 + t2)[..|t1 + t2| - 1] == t1 + t2[..n];
      assert (t1 + t2)[|t1 + t2| - 1] == t2[n];
      RunAppend(t1, t2[..n], arr);
    }
  }

  /** Every `w` token, when reached, names a position inside the array. */
  predicate SwapsInRange(tokens: seq<string>, arr: seq<Slot>)
    requires WellFormedTokens(tokens)
    decreases |tokens|
  {
    tokens == [] ||
    (SwapsInRange(tokens[..|tokens| - 1], arr) &&
     var t := tokens[|tokens| - 1];
     (t != "" && t[0] == 'w' ==> Position(t) < |Run(tokens[..|tokens| - 1], arr)|))
  }

  /** While swaps stay in range, no hole ever appears. */
  lemma {:induction false} RunKeepsNoHoles(tokens: seq<string>, arr: seq<Slot>)
    requires WellFormedTokens(tokens) && NoHoles(arr) && SwapsInRange(tokens, arr)
    ensures NoHoles(Run(tokens, arr))
    decreases |tokens|
  {
    if tokens != [] {
      var front := tokens[..|tokens| - 1];
      RunKeepsNoHoles(front, arr);
      StepKeepsNoHoles(tokens[|tokens| - 1], Run(front, arr));
    }
  }

  lemma StepKeepsNoHoles(t: string, arr: seq<Slot>)
    requires WellFormedToken(t) && NoHoles(arr)
    requires t != "" && t[0] == 'w' ==> Position(t) < |arr|
    ensures NoHoles(Step(t, arr))
  {
    if t != "" && t[0] == 'w' {
      var p := Position(t);
      var moved := Put(arr, 0, At(arr, p % |arr|));
      assert NoHoles(moved);
      assert NoHoles(Put(moved, p, At(arr, 0)));
    }
  }

  /** decipher is a left fold over the tokens: deciphering with `t1 + t2` is
      deciphering with `t1`, then deciphering that result with `t2`, as long as
      the swaps of `t1` stay in range. */
  lemma DecipherCompose(t1: seq<string>, t2: seq<string>, sig: string)
    requires WellFormedTokens(t1) && WellFormedTokens(t2)
    requires SwapsInRange(t1, Lift(sig))
    ensures WellFormedTokens(t1 + t2)
    ensures Deciphered(t1 + t2, sig) == Deciphered(t2, Deciphered(t1, sig))
  {
    RunAppend(t1, t2, Lift(sig));
    RunKeepsNoHoles(t1, Lift(sig));
    LiftJoin(Run(t1, Lift(sig)));
  }

  /** Two reversals cancel: ["r", "r"] is the identity. */
  lemma DoubleReverseIsIdentity(sig: string)
    ensures Deciphered(["r", "r"], sig) == sig
  {
    var tokens := ["r", "r"];
    assert tokens[..1] == ["r"] && tokens[..1][..0] == [];
    assert Run(["r"], Lift(sig)) == Reverse(Lift(sig));
    assert Run(tokens, Lift(sig)) == Reverse(Reverse(Lift(sig)));
    ReverseInvolution(Lift(sig));
    JoinLift(sig);
  }

  /** A token whose first character is not r, w, s or p changes nothing. */
  predicate Ignored(token: string) {
    token == "" || token[0] !in "rwsp"
  }

  /** The tokens the `switch` acts on, in input order: every kept token is taken
      from the input and acted on, every acted-on token is kept, and a single
      token is kept exactly when it is not ignored (`KnownTokensAppend` extends
      that to concatenations). */
  function KnownTokens(tokens: seq<string>): (r: seq<string>)
    ensures forall i :: 0 <= i < |r| ==> !Ignored(r[i])
    ensures forall i :: 0 <= i < |r| ==> r[i] in tokens
    ensures forall i :: 0 <= i < |tokens| && !Ignored(tokens[i]) ==> tokens[i] in r
    ensures |tokens| == 1 ==> r == if Ignored(tokens[0]) then [] else tokens
  {
    if tokens == [] then []
    else
      var front := KnownTokens(tokens[..|tokens| - 1]);
      var last := tokens[|tokens| - 1];
      if Ignored(last) then front else front + [last]
  }

  /** Keeping the tokens of a concatenation keeps those of each part, in order. */
  lemma {:induction false} KnownTokensAppend(a: seq<string>, b: seq<string>)
    ensures KnownTokens(a + b) == KnownTokens(a) + KnownTokens(b)
    decreases |b|
  {
    if b == [] {
      assert a + b == a;
    } else {
      var n := |b| - 1;
      assert (a + b)[..|a + b| - 1] == a + b[..n];
      assert (a + b)[|a + b| - 1] == b[n];
      KnownTokensAppend(a, b[..n]);
    }
  }

  /** Dropping the ignored tokens does not change the result. */
  lemma {:induction false} IgnoredTokensDoNothing(tokens: seq<string>, arr: seq<Slot>)
    requires WellFormedTokens(tokens)
    ensures WellFormedTokens(KnownTokens(tokens))
    ensures Run(KnownTokens(tokens), arr) == Run(tokens, arr)
    decreases |tokens|
  {
    if tokens != [] {
      var front := tokens[..|tokens| - 1];
      var last := tokens[|tokens| - 1];
      IgnoredTokensDoNothing(front, arr);
      if !Ignored(last) {
        var k := KnownTokens(front) + [last];
        assert k[..|k| - 1] == KnownTokens(front);
      }
    }
  }

  lemma RunOfThree(t: seq<string>, arr: seq<Slot>)
    requires |t| == 3 && WellFormedTokens(t)
    ensures Run(t, arr) == Step(t[2], Step(t[1], Step(t[0], arr)))
  {
    var t1, t2 := t[..1], t[..2];
    assert t2[..1] == t1 && t1[..0] == [] && t1[0] == t[0] && t2[1] == t[1];
    assert Run(t1, arr) == Step(t[0], arr);
    assert Run(t2, arr) == Step(t[1], Run(t1, arr));
    assert t[..|t| - 1] == t2;
  }

  lemma PositionsOfFixture()
    ensures WellFormedTokens(["s3", "r", "w2"]) && WellFormedTokens(["w2", "r", "s3"])
    ensures Position("s3") == 3 && Position("w2") == 2
  {
    assert "s3"[1..] == "3" && "w2"[1..] == "2";
    assert DecimalValue("3") == 3 && DecimalValue("2") == 2;
  }

  /** Worked fixture: "ABCDEFG" under s3, r, w2 goes DEFG, GFED, EFGD. */
  lemma WorkedFixture()
    ensures Deciphered(["s3", "r", "w2"], "ABCDEFG") == "EFGD"
  {
    PositionsOfFixture();
    RunOfThree(["s3", "r", "w2"], Lift("ABCDEFG"));
    SliceThreeOfFixture();
    ReverseOfFour();
    SwapTwoOfFour();
    JoinLift("EFGD");
  }

  lemma SliceThreeOfFixture()
    ensures Step("s3", Lift("ABCDEFG")) == Lift("DEFG")
  {
    PositionsOfFixture();
    assert SliceFrom(Lift("ABCDEFG"), 3) == Lift("DEFG");
  }

  lemma ReverseOfFour()
    ensures Reverse(Lift("DEFG")) == Lift("GFED")
  {
    var r := Reverse(Lift("DEFG"));
    assert forall j :: 0 <= j < 4 ==> r[j] == Lift("GFED")[j];
  }

  lemma SwapTwoOfFour()
    ensures SwapHead(Lift("GFED"), 2) == Lift("EFGD")
  {
    var r := SwapHead(Lift("GFED"), 2);
    assert |r| == 4;
    assert forall j :: 0 <= j < 4 ==> r[j] == Lift("EFGD")[j];
  }

  /** The same tokens in the opposite order give a different signature:
      "ABCDEFG" under w2, r, s3 goes CBADEFG, GFEDABC, DABC. */
  lemma OrderMatters()
    ensures Reverse(["s3", "r", "w2"]) == ["w2", "r", "s3"]
    ensures WellFormedTokens(["s3", "r", "w2"]) && WellFormedTokens(Reverse(["s3", "r", "w2"]))
    ensures Deciphered(Reverse(["s3", "r", "w2"]), "ABCDEFG") == "DABC"
    ensures Deciphered(Reverse(["s3", "r", "w2"]), "ABCDEFG") != Deciphered(["s3", "r", "w2"], "ABCDEFG")
  {
    assert Reverse(["s3", "r", "w2"]) == ["w2", "r", "s3"];
    PositionsOfFixture();
    ReversedRun();
    WorkedFixture();
  }

  lemma ReversedRun()
    ensures WellFormedTokens(["w2", "r", "s3"])
    ensures Deciphered(["w2", "r", "s3"], "ABCDEFG") == "DABC"
  {
    PositionsOfFixture();
    RunOfThree(["w2", "r", "s3"], Lift("ABCDEFG"));
    SwapTwoOfSeven();
    ReverseOfSeven();
    SliceThreeOfSeven();
    JoinLift("DABC");
  }

  lemma SliceThreeOfSeven()
    ensures Step("s3", Lift("GFEDABC")) == Lift("DABC")
  {
    PositionsOfFixture();
    assert SliceFrom(Lift("GFEDABC"), 3) == Lift("DABC");
  }

  lemma SwapTwoOfSeven()
    ensures SwapHead(Lift("ABCDEFG"), 2) == Lift("CBADEFG")
  {
    var r := SwapHead(Lift("ABCDEFG"), 2);
    assert |r| == 7;
    assert forall j :: 0 <= j < 7 ==> r[j] == Lift("CBADEFG")[j];
  }

  lemma ReverseOfSeven()
    ensures Reverse(Lift("CBADEFG")) == Lift("GFEDABC")
  {
    var r := Reverse(Lift("CBADEFG"));
    assert forall j :: 0 <= j < 7 ==> r[j] == Lift("GFEDABC")[j];
  }

  /** Past the end, `w<N>` duplicates an element instead of exchanging: "abc"
      under w4 becomes "bbca", where a swap with index 4 mod 3 would give "bac". */
  lemma SwapPastTheEnd()
    ensures Deciphered(["w4"], "abc") == "bbca"
  {
    assert DecimalValue("4") == 4;
    assert ["w4"][..0] == [];
    var a := SwapHead(Lift("abc"), 4);
    assert a == [Some('b'), Some('b'), Some('c'), None, Some('a')];
  }
}
