/** The key-sequence matcher of the page: a `keydown` handler keeps the codes
    of the most recent key presses in `konami` and fires (a cosmetic
    animation, left out) when they spell `KonamiCode`, then starts over. */
module Konami {
  import opened JsString

  /** The target sequence of `KeyboardEvent.code` values. */
  const KonamiCode: seq<string> := [
    "ArrowUp", "ArrowUp", "ArrowDown", "ArrowDown",
    "ArrowLeft", "ArrowRight", "ArrowLeft", "ArrowRight",
    "KeyB", "KeyA"
  ]

  /** The last `|KonamiCode|` codes of `history` (all of it when shorter). */
  function Recent(history: seq<string>): (r: seq<string>)
    ensures |r| <= |KonamiCode| && |r| <= |history|
    ensures |r| == |history| || |r| == |KonamiCode|
    ensures r == history[|history| - |r|..]
  {
    if |history| <= |KonamiCode| then history else history[|history| - |KonamiCode|..]
  }

  /** Pushing a code onto the window and dropping the oldest when it overflows
      gives the window of the history extended by that code. */
  lemma RecentPush(history: seq<string>, code: string)
    ensures var pushed := Recent(history) + [code];
            (if |pushed| > |KonamiCode| then pushed[1..] else pushed) == Recent(history + [code])
  {
    var h := history + [code];
    var pushed := Recent(history) + [code];
    if |history| >= |KonamiCode| {
      assert pushed[1..] == h[|h| - |KonamiCode|..];
    }
  }

  /** No code of the target sequence holds a comma. */
  lemma TargetCommaFree()
    ensures forall k :: 0 <= k < |KonamiCode| ==> CommaFree(KonamiCode[k])
  {
    assert CommaFree("ArrowUp") && CommaFree("ArrowDown");
    assert CommaFree("ArrowLeft") && CommaFree("ArrowRight");
    assert CommaFree("KeyB") && CommaFree("KeyA");
  }

  /** `konami.join(',') === konamiCode.join(',')` on a non-empty window of
      comma-free codes holds exactly when the window is the target sequence. */
  lemma MatchIsTarget(window: seq<string>)
    requires |window| > 0
    requires forall k :: 0 <= k < |window| ==> CommaFree(window[k])
    ensures JoinWithCommas(window) == JoinWithCommas(KonamiCode) <==> window == KonamiCode
  {
    TargetCommaFree();
    JoinsEqual(window, KonamiCode);
  }

  class KeySequence {
    /** The codes kept by the handler. */
    var konami: seq<string>
    /** Every code pressed since the buffer was last emptied. */
    ghost var sinceReset: seq<string>

    /** The buffer is the most recent part of what was pressed since the last
        reset, in arrival order and at most `|KonamiCode|` long. */
    ghost predicate Valid()
      reads this
    {
      konami == Recent(sinceReset)
    }

    constructor ()
      ensures Valid() && konami == [] && sinceReset == []
    {
      konami := [];
      sinceReset := [];
    }

    /** The `keydown` handler: push the code, drop the oldest when there are
        too many, and empty the buffer when it matches the target. The buffer
        ends up empty exactly when it fired. */
    method KeyDown(code: string) returns (fired: bool)
      requires Valid()
      modifies this
      ensures Valid()
      ensures fired <==> JoinWithCommas(Recent(old(sinceReset) + [code])) == JoinWithCommas(KonamiCode)
      ensures fired ==> konami == [] && sinceReset == []
      ensures !fired ==> konami == Recent(old(sinceReset) + [code]) != [] &&
                         sinceReset == old(sinceReset) + [code]
    {
      RecentPush(sinceReset, code);
      konami := konami + [code];
      if |konami| > |KonamiCode| {
        konami := konami[1..];
      }
      sinceReset := sinceReset + [code];
      fired := JoinWithCommas(konami) == JoinWithCommas(KonamiCode);
      if fired {
        konami := [];
        sinceReset := [];
      }
    }
  }

  /** While codes carry no commas, the handler fires exactly when the last ten
      codes pressed since the previous reset are the target sequence. */
  lemma FiresOnTarget(history: seq<string>, code: string)
    requires forall k :: 0 <= k < |history| ==> CommaFree(history[k])
    requires CommaFree(code)
    ensures JoinWithCommas(Recent(history + [code])) == JoinWithCommas(KonamiCode) <==>
            Recent(history + [code]) == KonamiCode
  {
    var h := history + [code];
    var w := Recent(h);
    forall k | 0 <= k < |w| ensures CommaFree(w[k]) {
      assert w[k] == h[|h| - |w| + k];
    }
    MatchIsTarget(w);
  }
}
