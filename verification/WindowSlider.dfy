/** The sliding window that reads an exponent from its low end, one odd digit at a time. */
module WindowSliders {
  import opened Bits

  // `Integer` stores its magnitude in machine words; only whole words are counted.
  const WORD_BITS: nat := 64

  function WordCount(n: nat): nat {
    (BitCount(n) + WORD_BITS - 1) / WORD_BITS
  }

  function DefaultWindowSize(expLen: nat): (w: nat)
    ensures 1 <= w <= 7
  {
    if expLen <= 17 then 1
    else if expLen <= 24 then 2
    else if expLen <= 70 then 3
    else if expLen <= 197 then 4
    else if expLen <= 539 then 5
    else if expLen <= 1434 then 6
    else 7
  }

  ghost function Beyond(n: nat, threshold: nat): nat {
    if n > threshold then 1 else 0
  }

  /** The default grows by one bit beyond each of six lengths of the exponent. */
  lemma DefaultWindowSteps(expLen: nat)
    ensures DefaultWindowSize(expLen) == 1 + Beyond(expLen, 17) + Beyond(expLen, 24) + Beyond(expLen, 70)
      + Beyond(expLen, 197) + Beyond(expLen, 539) + Beyond(expLen, 1434)
  {
  }

  class WindowSlider {
    var exp: nat
    var windowModulus: nat
    var windowSize: nat
    var windowBegin: nat
    var expWindow: int
    var fastNegate: bool
    var negateNext: bool
    var firstTime: bool
    var finished: bool

    ghost predicate Valid()
      reads this
    {
      && 1 <= windowSize
      && windowModulus == Pow2(windowSize)
      && (firstTime ==> windowBegin == 0 && !finished)
      && (!firstTime && !finished ==> expWindow % 2 == 1 && 0 < expWindow < Pow2(windowSize))
    }

    /** The signed digit of the window just found. */
    function Digit(): int
      reads this
    {
      if negateNext then -expWindow else expWindow
    }

    /** The part of the exponent above the window just found: what no window has covered yet. */
    ghost function Unread(): int
      reads this
    {
      if finished then 0
      else if firstTime then exp
      else Shl(Shr(exp, windowSize), windowSize + windowBegin)
    }

    /** The current window and everything above it: what has still to be added up. */
    ghost function Pending(): int
      reads this
    {
      if finished then 0
      else if firstTime then exp
      else Shl(Digit(), windowBegin) + Unread()
    }

    constructor (expIn: nat, fastNegate: bool, windowSizeIn: nat)
      requires windowSizeIn < 32
      ensures Valid() && firstTime
      ensures Unread() == expIn && this.fastNegate == fastNegate
      ensures windowSize == if windowSizeIn == 0 then DefaultWindowSize(BitCount(expIn)) else windowSizeIn
    {
      exp, windowBegin, this.fastNegate := expIn, 0, fastNegate;
      firstTime, finished := true, false;
      expWindow, negateNext := 0, false;
      var size := windowSizeIn;
      if size == 0 {
        size := DefaultWindowSize(BitCount(expIn));
      }
      windowSize := size;
      windowModulus := Pow2(size);
    }

    /** Moves to the next window, or finishes exactly when nothing is left unread. The digit found
        is odd and less than 2^windowSize in magnitude; together with what is then still unread it
        makes up what was unread before. Without negation the digit is positive; with it, the bit
        above the window is zero as well, so that the next window starts one bit further up. */
    method FindNextWindow()
      requires Valid() && !finished
      modifies this
      ensures Valid() && !firstTime
      ensures windowSize == old(windowSize) && fastNegate == old(fastNegate)
      ensures finished <==> old(Unread()) == 0
      ensures old(Unread()) == Pending()
      ensures !finished ==> windowBegin >= old(windowBegin) + if old(firstTime) then 0 else windowSize
      ensures !finished && !fastNegate ==> Digit() > 0
      ensures !finished && fastNegate ==> !GetBit(exp, windowSize)
      ensures !finished && !old(firstTime) ==> exp < old(exp)
    {
      var start := if firstTime then 0 else windowSize;
      ghost var begin, e := windowBegin, exp;
      firstTime := false;
      var skipCount, found := SkipZeroBits(exp, start);
      if !found {
        finished := true;
        ShlZero(start + begin);
        return;
      }
      WindowFound(e, start, skipCount, begin, windowSize, fastNegate && GetBit(Shr(e, skipCount), windowSize));
      CutWindow(skipCount);
    }

    /** Shifts the exponent to the bit found and cuts the window off. */
    method CutWindow(skipCount: nat)
      requires windowModulus == Pow2(windowSize)
      modifies this`exp, this`windowBegin, this`expWindow, this`negateNext
      ensures windowBegin == old(windowBegin) + skipCount
      ensures var shifted, p := Shr(old(exp), skipCount), Pow2(windowSize);
        && negateNext == (fastNegate && GetBit(shifted, windowSize))
        && exp == (if negateNext then shifted + p else shifted)
        && expWindow == if negateNext then p - Low(shifted, windowSize) else Low(shifted, windowSize)
    {
      ShiftIsDivision(Shr(exp, skipCount), windowSize);
      hide Shl, Shr, Low, GetBit, Pow2;
      exp := Shr(exp, skipCount);
      windowBegin := windowBegin + skipCount;
      expWindow := exp % Pow2(windowSize);
      if fastNegate && GetBit(exp, windowSize) {
        negateNext := true;
        expWindow := Pow2(windowSize) - expWindow;
        exp := exp + windowModulus;
      } else {
        negateNext := false;
      }
    }
  }

  /** The search loop of `FindNextWindow`: the lowest set bit at or above `start`, if any. */
  method SkipZeroBits(exp: nat, start: nat) returns (skipCount: nat, found: bool)
    ensures start <= skipCount
    ensures found ==> GetBit(exp, skipCount) && Shr(exp, start) == Shl(Shr(exp, skipCount), skipCount - start)
    ensures !found ==> Shr(exp, start) == 0
  {
    var expLen := WordCount(exp) * WORD_BITS;
    skipCount, found := start, true;
    while !GetBit(exp, skipCount)
      invariant start <= skipCount
      invariant Shr(exp, start) == Shl(Shr(exp, skipCount), skipCount - start)
      decreases expLen - skipCount
    {
      if skipCount >= expLen {
        WordsCoverBits(exp);
        HighBitsClear(exp, skipCount);
        ShlZero(skipCount - start);
        return skipCount, false;
      }
      SkipZeroBit(exp, start, skipCount);
      skipCount := skipCount + 1;
    }
  }

  // ----- arithmetic of one window

  lemma WordsCoverBits(n: nat)
    ensures BitCount(n) <= WordCount(n) * WORD_BITS
  {
    var words := WordCount(n);
    assert (BitCount(n) + 63) / 64 == words;
  }

  lemma SkipZeroBit(e: nat, start: nat, skip: nat)
    requires start <= skip && !GetBit(e, skip)
    requires Shr(e, start) == Shl(Shr(e, skip), skip - start)
    ensures Shr(e, start) == Shl(Shr(e, skip + 1), skip + 1 - start)
  {
    var s := Shr(e, skip + 1);
    assert Shr(e, skip) == s + s;
    ShlAdd(s, s, skip - start);
  }

  lemma LowOfOdd(e: nat, ws: nat)
    requires ws >= 1 && e % 2 == 1
    ensures Low(e, ws) % 2 == 1
  {
  }

  /** The digit of a window is odd and fits, and negating it clears the bit above. */
  lemma WindowDigit(shifted: nat, ws: nat, negate: bool)
    requires ws >= 1 && shifted % 2 == 1
    requires negate ==> GetBit(shifted, ws)
    ensures var w := Low(shifted, ws);
      && 0 < w < Pow2(ws) && w % 2 == 1 && (Pow2(ws) - w) % 2 == 1
      && Shr(shifted + Pow2(ws), ws) == Shr(shifted, ws) + 1
      && (negate ==> !GetBit(shifted + Pow2(ws), ws) && Pow2(ws) < shifted)
  {
    LowOfOdd(shifted, ws);
    LowBounds(shifted, ws);
    ShlOne(ws);
    ShiftAdd(shifted, ws, 1);
    assert Pow2(ws) == 2 * Pow2(ws - 1);
    if negate {
      ShlMonotonic(1, Shr(shifted, ws), ws);
    }
  }

  /** Cutting a window off at position `at` keeps the value. */
  lemma WindowCut(shifted: nat, ws: nat, at: nat, negate: bool)
    requires Shr(shifted + Pow2(ws), ws) == Shr(shifted, ws) + 1
    ensures var w := Low(shifted, ws);
      var exp' := if negate then shifted + Pow2(ws) else shifted;
      var digit := if negate then w - Pow2(ws) else w;
      Shl(shifted, at) == Shl(digit, at) + Shl(Shr(exp', ws), ws + at)
  {
    var exp' := if negate then shifted + Pow2(ws) else shifted;
    var digit := if negate then Low(shifted, ws) - Pow2(ws) else Low(shifted, ws);
    var rest := Shr(exp', ws);
    ShlAdd(Shr(shifted, ws), 1, ws);
    ShlOne(ws);
    assert shifted == digit + Shl(rest, ws);
    ShlAdd(digit, Shl(rest, ws), at);
    ShlShl(rest, ws, at);
  }

  /** All that `FindNextWindow` promises about the numbers, when it finds a window after skipping
      from bit `start` to bit `skip`. */
  lemma WindowFound(e: nat, start: nat, skip: nat, begin: nat, ws: nat, negate: bool)
    requires ws >= 1 && start <= skip && GetBit(e, skip)
    requires Shr(e, start) == Shl(Shr(e, skip), skip - start)
    requires negate ==> GetBit(Shr(e, skip), ws)
    ensures var shifted := Shr(e, skip);
      var w := Low(shifted, ws);
      var exp' := if negate then shifted + Pow2(ws) else shifted;
      var digit := if negate then w - Pow2(ws) else w;
      && 0 < w < Pow2(ws) && w % 2 == 1 && (Pow2(ws) - w) % 2 == 1
      && Shl(Shr(e, start), start + begin) == Shl(digit, begin + skip) + Shl(Shr(exp', ws), ws + (begin + skip))
      && Shl(Shr(e, start), start + begin) > 0
      && (negate ==> !GetBit(exp', ws))
      && (skip >= 1 ==> exp' < e)
  {
    var shifted := Shr(e, skip);
    ShlShl(shifted, skip - start, start + begin);
    ShlMonotonic(1, shifted, begin + skip);
    ShlOne(begin + skip);
    WindowDigit(shifted, ws, negate);
    WindowCut(shifted, ws, begin + skip, negate);
    if skip >= 1 {
      ShiftSmaller(e, skip);
    }
  }
}
