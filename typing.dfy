/**
 * The hero typing animation of assets/js/main.js (lines 111-154).
 *
 * `typeText` is one step of a cursor over a fixed list of phrases: it shows a
 * prefix of the current phrase, moves the character index by one, and picks
 * the delay before it runs again. `TypeStep` states one step on values; the
 * class `Typewriter` keeps the closure variables as fields and its method
 * `TypeText` is proved to take exactly that step.
 */
module Typing {

  /** The four phrases of the page, in the order they are typed. */
  const Phrases: seq<string> := [
    "Environmental Analytical Chemist",
    "RDM Enthusiast",
    "Open {Science, Source} Advocate",
    "Building SciTrace for Research Data Management"
  ]

  const StartDelay: nat := 1000   // before the first step
  const TypeDelay: nat := 100     // after typing a character
  const DeleteDelay: nat := 50    // after deleting one
  const EndPause: nat := 2000     // when the whole phrase is shown
  const NextPause: nat := 500     // when the phrase is fully deleted

  /** `String.prototype.substring` clamps each bound to [0, length] and swaps them when reversed. */
  function Clamp(x: int, len: nat): (r: nat)
    ensures r <= len
    ensures 0 <= x <= len ==> r == x
  {
    if x < 0 then 0 else if x > len then len else x
  }

  function JsSubstring(s: string, start: int, end: int): (r: string)
    ensures |r| <= |s|
    ensures 0 <= start <= end <= |s| ==> r == s[start..end]
    ensures start <= 0 && end >= 0 ==> r == s[..Clamp(end, |s|)]
  {
    var a := Clamp(start, |s|);
    var b := Clamp(end, |s|);
    if a <= b then s[a..b] else s[b..a]
  }

  /** The closure variables `textIndex`, `charIndex` and `isDeleting`. */
  datatype Cursor = Cursor(textIndex: nat, charIndex: int, isDeleting: bool)

  /** What one call of `typeText` produces: the text shown, the next cursor, and the delay it schedules. */
  datatype Tick = Tick(shown: string, next: Cursor, delay: nat)

  /** The cursor after one call of `typeText`. */
  function NextCursor(texts: seq<string>, c: Cursor): Cursor
    requires c.textIndex < |texts|
  {
    var len := |texts[c.textIndex]|;
    var ci := if c.isDeleting then c.charIndex - 1 else c.charIndex + 1;
    if !c.isDeleting && ci == len then Cursor(c.textIndex, ci, true)
    else if c.isDeleting && ci == 0 then Cursor((c.textIndex + 1) % |texts|, ci, false)
    else Cursor(c.textIndex, ci, c.isDeleting)
  }

  /** The text content one call of `typeText` writes. */
  function ShownText(texts: seq<string>, c: Cursor): string
    requires c.textIndex < |texts|
  {
    var current := texts[c.textIndex];
    if c.isDeleting then JsSubstring(current, 0, c.charIndex - 1)
    else JsSubstring(current, 0, c.charIndex + 1)
  }

  /** The delay (`typingSpeed`) one call of `typeText` schedules the next call after. */
  function StepDelay(texts: seq<string>, c: Cursor): nat
    requires c.textIndex < |texts|
  {
    var len := |texts[c.textIndex]|;
    if !c.isDeleting && c.charIndex + 1 == len then EndPause
    else if c.isDeleting && c.charIndex - 1 == 0 then NextPause
    else if c.isDeleting then DeleteDelay
    else TypeDelay
  }

  /** One call of `typeText`. */
  function TypeStep(texts: seq<string>, c: Cursor): Tick
    requires c.textIndex < |texts|
  {
    Tick(ShownText(texts, c), NextCursor(texts, c), StepDelay(texts, c))
  }

  /** Every phrase has at least one character (the source's four do). */
  predicate WellFormed(texts: seq<string>)
  {
    |texts| > 0 && forall i :: 0 <= i < |texts| ==> |texts[i]| > 0
  }

  /**
   * The cursor states the animation can reach: the index is in range, the
   * character index lies within the phrase, a deleting cursor has something
   * left to delete, and a typing one has something left to type.
   */
  predicate ValidCursor(texts: seq<string>, c: Cursor)
  {
    && c.textIndex < |texts|
    && 0 <= c.charIndex <= |texts[c.textIndex]|
    && (c.isDeleting ==> c.charIndex >= 1)
    && (!c.isDeleting ==> c.charIndex < |texts[c.textIndex]|)
  }

  /** The shown text is what the cursor says: the current phrase up to the character index. */
  predicate ShowsPrefix(texts: seq<string>, shown: string, c: Cursor)
    requires ValidCursor(texts, c)
  {
    shown == texts[c.textIndex][..c.charIndex]
  }

  /** One step keeps the cursor valid, shows the matching prefix, and moves the index by exactly one. */
  lemma StepKeepsCursor(texts: seq<string>, c: Cursor)
    requires WellFormed(texts) && ValidCursor(texts, c)
    ensures ValidCursor(texts, TypeStep(texts, c).next)
    ensures ShowsPrefix(texts, TypeStep(texts, c).shown, TypeStep(texts, c).next)
    ensures var n := TypeStep(texts, c).next;
      n.charIndex == if c.isDeleting then c.charIndex - 1 else c.charIndex + 1
  {
  }

  /** The cursor after `k` steps from `c`. */
  function Run(texts: seq<string>, c: Cursor, k: nat): (r: Cursor)
    requires WellFormed(texts) && ValidCursor(texts, c)
    ensures ValidCursor(texts, r)
    decreases k
  {
    if k == 0 then c
    else
      var prev := Run(texts, c, k - 1);
      StepKeepsCursor(texts, prev);
      NextCursor(texts, prev)
  }

  /** `k` steps then `j` more steps are `k + j` steps. */
  lemma {:induction false} RunAdd(texts: seq<string>, c: Cursor, k: nat, j: nat)
    requires WellFormed(texts) && ValidCursor(texts, c)
    ensures Run(texts, c, k + j) == Run(texts, Run(texts, c, k), j)
    decreases j
  {
    if j > 0 {
      var mid := Run(texts, c, k);
      RunAdd(texts, c, k, j - 1);
      var prev := Run(texts, mid, j - 1);
      assert Run(texts, c, k + (j - 1)) == prev;
      assert Run(texts, c, k + j) == NextCursor(texts, prev);
    }
  }

  /** The cursor at the start of phrase `i`. */
  function PhraseStart(i: nat): Cursor
  {
    Cursor(i, 0, false)
  }

  /**
   * Within phrase `i` of length L, the character index rises by one per step
   * to L, then falls by one per step to 0, when the next phrase (cyclically)
   * begins.
   */
  lemma {:induction false} PhraseRound(texts: seq<string>, i: nat, k: nat)
    requires WellFormed(texts) && i < |texts|
    requires k <= 2 * |texts[i]|
    ensures ValidCursor(texts, PhraseStart(i))
    ensures var len := |texts[i]|;
      Run(texts, PhraseStart(i), k) ==
        if k < len then Cursor(i, k, false)
        else if k < 2 * len then Cursor(i, 2 * len - k, true)
        else PhraseStart((i + 1) % |texts|)
    decreases k
  {
    if k > 0 {
      PhraseRound(texts, i, k - 1);
    }
  }

  /**
   * The delay scheduled by step `k` of phrase `i`: 100 while typing, 2000 when
   * the phrase is complete, 50 while deleting, 500 when it is gone.
   */
  lemma PhraseDelays(texts: seq<string>, i: nat, k: nat)
    requires WellFormed(texts) && i < |texts|
    requires k < 2 * |texts[i]|
    ensures ValidCursor(texts, PhraseStart(i))
    ensures var len := |texts[i]|;
      TypeStep(texts, Run(texts, PhraseStart(i), k)).delay ==
        if k < len - 1 then TypeDelay
        else if k == len - 1 then EndPause
        else if k < 2 * len - 1 then DeleteDelay
        else NextPause
  {
    PhraseRound(texts, i, k);
  }

  /** The number of steps needed to type and delete the first `j` phrases of the cycle. */
  function CycleSteps(texts: seq<string>, j: nat): nat
    requires |texts| > 0
  {
    if j == 0 then 0 else CycleSteps(texts, j - 1) + 2 * |texts[(j - 1) % |texts|]|
  }

  /** Multiplying by a natural keeps the order. */
  lemma MulMono(a: nat, b: nat, n: nat)
    requires a <= b
    ensures a * n <= b * n
  {
  }

  /** A number written as q * n + r with 0 <= r < n leaves remainder r. */
  lemma ModUnique(x: nat, n: nat, q: nat, r: nat)
    requires n > 0 && r < n && x == q * n + r
    ensures x % n == r
  {
    var q' := x / n;
    if q' < q {
      MulMono(q' + 1, q, n);
    } else if q' > q {
      MulMono(q + 1, q', n);
    }
  }

  /** Stepping to the next index modulo n commutes with taking the remainder. */
  lemma ModSucc(a: nat, n: nat)
    requires n > 0
    ensures (a % n + 1) % n == (a + 1) % n
  {
    var q, r := a / n, a % n;
    assert a == q * n + r;
    if r + 1 < n {
      ModUnique(a + 1, n, q, r + 1);
      ModUnique(r + 1, n, 0, r + 1);
    } else {
      assert (q + 1) * n == q * n + n;
      ModUnique(a + 1, n, q + 1, 0);
      ModUnique(r + 1, n, 1, 0);
    }
  }

  /** The phrases are visited in cyclic order: after j whole rounds, phrase j mod |texts| begins. */
  lemma {:induction false} CyclicOrder(texts: seq<string>, j: nat)
    requires WellFormed(texts)
    ensures ValidCursor(texts, PhraseStart(0))
    ensures Run(texts, PhraseStart(0), CycleSteps(texts, j)) == PhraseStart(j % |texts|)
    decreases j
  {
    if j > 0 {
      var n := |texts|;
      CyclicOrder(texts, j - 1);
      var i := (j - 1) % n;
      RunAdd(texts, PhraseStart(0), CycleSteps(texts, j - 1), 2 * |texts[i]|);
      PhraseRound(texts, i, 2 * |texts[i]|);
      ModSucc(j - 1, n);
    }
  }

  /** The source's phrase list meets the requirement every property above relies on. */
  lemma PhrasesWellFormed()
    ensures WellFormed(Phrases) && |Phrases| == 4
  {
  }

  /**
   * The closure of the typing handler: the phrases, the three cursor
   * variables, `typingSpeed`, and the text content of `#typing-text`.
   */
  class Typewriter {
    const texts: seq<string>
    var textIndex: nat
    var charIndex: int
    var isDeleting: bool
    var typingSpeed: nat
    var shown: string

    function Position(): Cursor
      reads this
    {
      Cursor(textIndex, charIndex, isDeleting)
    }

    ghost predicate Valid()
      reads this
    {
      WellFormed(texts) && ValidCursor(texts, Position())
    }

    /** The variables as initialised; the element shows whatever the page put there. */
    constructor (phrases: seq<string>, initialText: string)
      requires WellFormed(phrases)
      ensures Valid()
      ensures texts == phrases && Position() == PhraseStart(0)
      ensures typingSpeed == TypeDelay && shown == initialText
    {
      texts := phrases;
      textIndex, charIndex, isDeleting := 0, 0, false;
      typingSpeed := TypeDelay;
      shown := initialText;
    }

    /** One call of `typeText`; returns the delay it schedules the next call after. */
    method TypeText() returns (delay: nat)
      requires Valid()
      modifies this
      ensures Valid()
      ensures var t := TypeStep(texts, old(Position()));
        Position() == t.next && shown == t.shown && delay == t.delay
      ensures delay == typingSpeed
      ensures ShowsPrefix(texts, shown, Position())
    {
      ghost var before := Position();
      StepKeepsCursor(texts, before);
      var currentText := texts[textIndex];
      if isDeleting {
        shown := JsSubstring(currentText, 0, charIndex - 1);
        charIndex := charIndex - 1;
        typingSpeed := DeleteDelay;
      } else {
        shown := JsSubstring(currentText, 0, charIndex + 1);
        charIndex := charIndex + 1;
        typingSpeed := TypeDelay;
      }
      if !isDeleting && charIndex == |currentText| {
        typingSpeed := EndPause;
        isDeleting := true;
      } else if isDeleting && charIndex == 0 {
        isDeleting := false;
        textIndex := (textIndex + 1) % |texts|;
        typingSpeed := NextPause;
      }
      delay := typingSpeed;
    }
  }
}
