/**
  The typewriter effect of the portfolio page (`initTypingEffect` in script.js).

  A cursor (word index, character index, deleting flag) walks a fixed list of
  words. Each timer tick types or deletes one character, shows a prefix of the
  current word and picks the delay before the next tick. The timer itself is
  not modelled: a tick is one call of `Step` (on values) or of
  `Typewriter.Tick` (on the object).
 */
module TypingEffect {

  /** Delay after a tick that typed a character, word not yet complete. */
  const TypeDelay: nat := 100
  /** Delay after a tick that deleted a character, word not yet empty. */
  const DeleteDelay: nat := 50
  /** Pause after the tick that completes a word. */
  const WordTypedPause: nat := 2000
  /** Pause after the tick that empties a word, before the next word. */
  const NextWordPause: nat := 500

  /** The words the page cycles through. */
  const PortfolioWords: seq<string> :=
    ["برمجيات", "Full-Stack", "ذكاء اصطناعي", "موبايل", "ويب"]

  /** The word list the effect is built for: non-empty, and no word is empty. */
  predicate ValidWords(words: seq<string>)
  {
    |words| > 0 && forall i :: 0 <= i < |words| ==> |words[i]| > 0
  }

  lemma PortfolioWordsValid()
    ensures ValidWords(PortfolioWords)
  {
  }

  /** JavaScript's `s.substring(0, end)`: `end` is clamped into `[0, |s|]`. */
  function Substring(s: string, end: int): (r: string)
    ensures |r| == (if end < 0 then 0 else if end > |s| then |s| else end)
    ensures r <= s
  {
    if end <= 0 then "" else if end >= |s| then s else s[..end]
  }

  /** The closure's three variables. */
  datatype Cursor = Cursor(wordIndex: nat, charIndex: int, isDeleting: bool)

  /** The state right after initialisation. */
  const Start: Cursor := Cursor(0, 0, false)

  /** What one tick shows and how long it waits before the next tick. */
  datatype Frame = Frame(text: string, delay: nat)

  /** The effect of one tick: the new cursor and the frame it produced. */
  datatype Transition = Transition(next: Cursor, frame: Frame)

  /**
    The states the effect can be in between ticks: the word index is in range,
    the character index lies within the current word, a typing cursor has at
    least one character left to type and a deleting cursor at least one left
    to delete.
   */
  predicate WellFormed(words: seq<string>, c: Cursor)
  {
    c.wordIndex < |words| &&
    0 <= c.charIndex <= |words[c.wordIndex]| &&
    (if c.isDeleting then 0 < c.charIndex else c.charIndex < |words[c.wordIndex]|)
  }

  /** One call of `type()`, leaving out the `setTimeout` that reschedules it. */
  function Step(words: seq<string>, c: Cursor): (t: Transition)
    requires c.wordIndex < |words|
    ensures t.next.wordIndex < |words|
  {
    var word := words[c.wordIndex];
    var text := if c.isDeleting then Substring(word, c.charIndex - 1)
                else Substring(word, c.charIndex + 1);
    var charIndex := if c.isDeleting then c.charIndex - 1 else c.charIndex + 1;
    if !c.isDeleting && charIndex == |word| then
      Transition(Cursor(c.wordIndex, charIndex, true), Frame(text, WordTypedPause))
    else if c.isDeleting && charIndex == 0 then
      Transition(Cursor((c.wordIndex + 1) % |words|, charIndex, false), Frame(text, NextWordPause))
    else
      Transition(Cursor(c.wordIndex, charIndex, c.isDeleting),
                 Frame(text, if c.isDeleting then DeleteDelay else TypeDelay))
  }

  /** Every tick keeps the indices in bounds. */
  lemma StepPreservesWellFormed(words: seq<string>, c: Cursor)
    requires ValidWords(words) && WellFormed(words, c)
    ensures WellFormed(words, Step(words, c).next)
  {
  }

  /**
    The text shown is the first `charIndex` characters of the word just
    processed, `charIndex` being the new one; it is empty exactly on the tick
    that ends a deletion.
   */
  lemma StepShowsPrefix(words: seq<string>, c: Cursor)
    requires ValidWords(words) && WellFormed(words, c)
    ensures var t := Step(words, c);
      0 <= t.next.charIndex <= |words[c.wordIndex]| &&
      t.frame.text == words[c.wordIndex][..t.next.charIndex] &&
      (t.frame.text == "" <==> t.frame.delay == NextWordPause)
  {
  }

  /**
    The four kinds of tick, told apart by their delay: the tick that completes
    the word (2000, flips to deleting), the tick that empties it (500, flips to
    typing the next word), and ordinary typing (100) and deleting (50) ticks
    that keep the phase.
   */
  lemma StepPhases(words: seq<string>, c: Cursor)
    requires ValidWords(words) && WellFormed(words, c)
    ensures var t := Step(words, c); var n := |words[c.wordIndex]|;
      (t.frame.delay == WordTypedPause <==> !c.isDeleting && c.charIndex + 1 == n) &&
      (t.frame.delay == WordTypedPause ==> t.next == Cursor(c.wordIndex, n, true)) &&
      (t.frame.delay == NextWordPause <==> c.isDeleting && c.charIndex == 1) &&
      (t.frame.delay == NextWordPause ==>
         t.next == Cursor((c.wordIndex + 1) % |words|, 0, false)) &&
      (t.frame.delay == TypeDelay <==> !c.isDeleting && c.charIndex + 1 < n) &&
      (t.frame.delay == TypeDelay ==> t.next == Cursor(c.wordIndex, c.charIndex + 1, false)) &&
      (t.frame.delay == DeleteDelay <==> c.isDeleting && c.charIndex > 1) &&
      (t.frame.delay == DeleteDelay ==> t.next == Cursor(c.wordIndex, c.charIndex - 1, true)) &&
      (t.next.isDeleting != c.isDeleting <==>
         t.frame.delay == WordTypedPause || t.frame.delay == NextWordPause)
  {
  }

  /** The cursor after `k` ticks. */
  function Run(words: seq<string>, c: Cursor, k: nat): (r: Cursor)
    requires c.wordIndex < |words|
    ensures r.wordIndex < |words|
    decreases k
  {
    if k == 0 then c else Run(words, Step(words, c).next, k - 1)
  }

  /** The frames shown by the next `k` ticks, in order. */
  function Frames(words: seq<string>, c: Cursor, k: nat): seq<Frame>
    requires c.wordIndex < |words|
    decreases k
  {
    if k == 0 then [] else [Step(words, c).frame] + Frames(words, Step(words, c).next, k - 1)
  }

  /** Every state reached from a well-formed one is well-formed. */
  lemma {:induction false} RunPreservesWellFormed(words: seq<string>, c: Cursor, k: nat)
    requires ValidWords(words) && WellFormed(words, c)
    ensures WellFormed(words, Run(words, c, k))
    decreases k
  {
    if k > 0 {
      StepPreservesWellFormed(words, c);
      RunPreservesWellFormed(words, Step(words, c).next, k - 1);
    }
  }

  /** `k1 + k2` ticks are `k1` ticks followed by `k2` ticks. */
  lemma {:induction false} RunAdditive(words: seq<string>, c: Cursor, k1: nat, k2: nat)
    requires c.wordIndex < |words|
    ensures Run(words, c, k1 + k2) == Run(words, Run(words, c, k1), k2)
    ensures Frames(words, c, k1 + k2) == Frames(words, c, k1) + Frames(words, Run(words, c, k1), k2)
    decreases k1
  {
    if k1 > 0 {
      var t := Step(words, c);
      RunAdditive(words, t.next, k1 - 1, k2);
      assert k1 + k2 - 1 == (k1 - 1) + k2;
    }
  }

  /**
    Reference schedule for typing word `w` from `from` characters shown:
    the t-th frame shows one character more, and the frame that completes the
    word waits the long pause.
   */
  function TypingFrames(w: string, from: nat): (r: seq<Frame>)
    requires from <= |w|
    ensures |r| == |w| - from
  {
    seq(|w| - from, t requires 0 <= t < |w| - from =>
      Frame(w[..from + t + 1], if from + t + 1 == |w| then WordTypedPause else TypeDelay))
  }

  /**
    Reference schedule for deleting word `w` from `from` characters shown:
    the t-th frame shows one character fewer, and the frame that empties the
    word waits before the next word.
   */
  function DeletingFrames(w: string, from: nat): (r: seq<Frame>)
    requires from <= |w|
    ensures |r| == from
  {
    seq(from, t requires 0 <= t < from =>
      Frame(w[..from - 1 - t], if t == from - 1 then NextWordPause else DeleteDelay))
  }

  /** Everything shown while one word is typed out in full and deleted again. */
  function WordFrames(w: string): seq<Frame>
  {
    TypingFrames(w, 0) + DeletingFrames(w, |w|)
  }

  /** From `j` typed characters, `|w| - j` ticks finish the word and start deleting. */
  lemma {:induction false} TypingPhase(words: seq<string>, i: nat, j: nat)
    requires ValidWords(words) && i < |words| && j < |words[i]|
    ensures Run(words, Cursor(i, j, false), |words[i]| - j) == Cursor(i, |words[i]|, true)
    ensures Frames(words, Cursor(i, j, false), |words[i]| - j) == TypingFrames(words[i], j)
    decreases |words[i]| - j
  {
    var w := words[i];
    var c := Cursor(i, j, false);
    var t := Step(words, c);
    if j + 1 == |w| {
      assert t.next == Cursor(i, |w|, true);
      assert Frames(words, c, 1) == [t.frame];
      assert w[..j + 1] == w;
      assert TypingFrames(w, j) == [t.frame];
    } else {
      assert t == Transition(Cursor(i, j + 1, false), Frame(w[..j + 1], TypeDelay));
      TypingPhase(words, i, j + 1);
      assert TypingFrames(w, j) == [t.frame] + TypingFrames(w, j + 1);
    }
  }

  /** From `j` shown characters, `j` deleting ticks empty the word and move to the next one. */
  lemma {:induction false} DeletingPhase(words: seq<string>, i: nat, j: nat)
    requires ValidWords(words) && i < |words| && 0 < j <= |words[i]|
    ensures Run(words, Cursor(i, j, true), j) == Cursor((i + 1) % |words|, 0, false)
    ensures Frames(words, Cursor(i, j, true), j) == DeletingFrames(words[i], j)
    decreases j
  {
    var w := words[i];
    var c := Cursor(i, j, true);
    var t := Step(words, c);
    if j == 1 {
      assert t.next == Cursor((i + 1) % |words|, 0, false);
      assert Frames(words, c, 1) == [t.frame];
      assert DeletingFrames(w, j) == [t.frame];
    } else {
      assert t == Transition(Cursor(i, j - 1, true), Frame(w[..j - 1], DeleteDelay));
      DeletingPhase(words, i, j - 1);
      assert DeletingFrames(w, j) == [t.frame] + DeletingFrames(w, j - 1);
    }
  }

  /**
    From an empty display in typing phase, exactly `2 * |w|` ticks type the
    word, delete it, and leave the cursor at the start of the next word.
   */
  lemma WordCycle(words: seq<string>, i: nat)
    requires ValidWords(words) && i < |words|
    ensures Run(words, Cursor(i, 0, false), 2 * |words[i]|) == Cursor((i + 1) % |words|, 0, false)
    ensures Frames(words, Cursor(i, 0, false), 2 * |words[i]|) == WordFrames(words[i])
  {
    var n := |words[i]|;
    TypingPhase(words, i, 0);
    DeletingPhase(words, i, n);
    RunAdditive(words, Cursor(i, 0, false), n, n);
  }

  /** Ticks needed to cycle through the words from index `i` to the end of the list. */
  function PassTicks(words: seq<string>, i: nat): nat
    requires i <= |words|
    decreases |words| - i
  {
    if i == |words| then 0 else 2 * |words[i]| + PassTicks(words, i + 1)
  }

  /** The frames of the words from index `i` on, word after word in list order. */
  function PassFrames(words: seq<string>, i: nat): seq<Frame>
    requires i <= |words|
    decreases |words| - i
  {
    if i == |words| then [] else WordFrames(words[i]) + PassFrames(words, i + 1)
  }

  /** Cycling from word `i` to the end of the list wraps round to the initial state. */
  lemma {:induction false} PassFrom(words: seq<string>, i: nat)
    requires ValidWords(words) && i < |words|
    ensures Run(words, Cursor(i, 0, false), PassTicks(words, i)) == Start
    ensures Frames(words, Cursor(i, 0, false), PassTicks(words, i)) == PassFrames(words, i)
    decreases |words| - i
  {
    var c := Cursor(i, 0, false);
    var n := 2 * |words[i]|;
    WordCycle(words, i);
    if i + 1 == |words| {
      assert (i + 1) % |words| == 0;
      assert PassTicks(words, i) == n;
      assert PassFrames(words, i) == WordFrames(words[i]) + [];
    } else {
      assert (i + 1) % |words| == i + 1;
      var rest := PassTicks(words, i + 1);
      assert PassTicks(words, i) == n + rest;
      assert PassFrames(words, i) == WordFrames(words[i]) + PassFrames(words, i + 1);
      PassFrom(words, i + 1);
      RunAdditive(words, c, n, rest);
    }
  }

  /**
    One full pass: from the initial state the effect shows every word in list
    order, typed and deleted, and comes back to word 0 with nothing shown.
   */
  lemma FullPass(words: seq<string>)
    requires ValidWords(words)
    ensures Run(words, Start, PassTicks(words, 0)) == Start
    ensures Frames(words, Start, PassTicks(words, 0)) == PassFrames(words, 0)
  {
    PassFrom(words, 0);
  }

  /** The cycle over `["a", "bb"]`: six ticks, then back to typing "a" from empty. */
  lemma TwoWordCycle()
    ensures Run(["a", "bb"], Start, 6) == Start
    ensures Frames(["a", "bb"], Start, 6) ==
      [Frame("a", 2000), Frame("", 500),
       Frame("b", 100), Frame("bb", 2000), Frame("b", 50), Frame("", 500)]
  {
    var words := ["a", "bb"];
    FullPass(words);
    assert PassTicks(words, 0) == 6;
    assert "a"[..1] == "a" && "bb"[..1] == "b" && "bb"[..2] == "bb";
    assert TypingFrames("a", 0) == [Frame("a", 2000)];
    assert DeletingFrames("a", 1) == [Frame("", 500)];
    assert TypingFrames("bb", 0) == [Frame("b", 100), Frame("bb", 2000)];
    assert DeletingFrames("bb", 2) == [Frame("b", 50), Frame("", 500)];
  }

  /** The page's own five words come back to the first one, empty, after 76 ticks. */
  lemma PortfolioCycle()
    ensures Run(PortfolioWords, Start, 76) == Start
  {
    PortfolioWordsValid();
    FullPass(PortfolioWords);
    assert PassTicks(PortfolioWords, 0) == 76;
  }

  /** The typing closure as an object: the three captured variables are its fields. */
  class Typewriter {
    const words: seq<string>
    var wordIndex: nat
    var charIndex: int
    var isDeleting: bool

    function State(): Cursor
      reads this
    {
      Cursor(wordIndex, charIndex, isDeleting)
    }

    ghost predicate Valid()
      reads this
    {
      ValidWords(words) && WellFormed(words, State())
    }

    constructor (words: seq<string>)
      requires ValidWords(words)
      ensures Valid() && this.words == words && State() == Start
    {
      this.words := words;
      wordIndex, charIndex, isDeleting := 0, 0, false;
    }

    /** One timer tick: returns the text to display and the delay to the next tick. */
    method Tick() returns (text: string, delay: nat)
      requires Valid()
      modifies this
      ensures Valid()
      ensures Step(words, old(State())) == Transition(State(), Frame(text, delay))
      ensures text == words[old(wordIndex)][..charIndex]
    {
      ghost var before := State();
      StepShowsPrefix(words, before);
      StepPreservesWellFormed(words, before);
      var currentWord := words[wordIndex];
      if isDeleting {
        text := Substring(currentWord, charIndex - 1);
        charIndex := charIndex - 1;
      } else {
        text := Substring(currentWord, charIndex + 1);
        charIndex := charIndex + 1;
      }
      delay := if isDeleting then DeleteDelay else TypeDelay;
      if !isDeleting && charIndex == |currentWord| {
        delay := WordTypedPause;
        isDeleting := true;
      } else if isDeleting && charIndex == 0 {
        isDeleting := false;
        wordIndex := (wordIndex + 1) % |words|;
        delay := NextWordPause;
      }
    }
  }
}
