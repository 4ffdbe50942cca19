/**
 * The Konami easter egg (src/components/easter-eggs/KonamiPortal.tsx): a key
 * listener keeps the last ten normalised key names in a buffer and unlocks
 * the portal when the buffer spells the Konami code; Escape locks it again.
 */
module Konami {
  import opened Js

  type Key = string

  /** KONAMI_SEQUENCE. */
  const KonamiSequence: seq<Key> := ["ArrowUp", "ArrowUp", "ArrowDown", "ArrowDown", "ArrowLeft", "ArrowRight", "ArrowLeft", "ArrowRight", "b", "a"]

  const Escape: Key := "Escape"

  /** A one-character key name is lowercased, a longer key name is kept as it is. */
  function NormalizeKey(key: Key): (r: Key)
    ensures |r| == |key|
    ensures |key| != 1 ==> r == key
    ensures |key| == 1 ==> r == [LowerChar(key[0])]
  {
    if |key| == 1 then ToLower(key) else key
  }

  /** The last ten elements of `s`, or all of `s` when it is shorter. */
  function Last10(s: seq<Key>): (r: seq<Key>)
    ensures |r| == if |s| < |KonamiSequence| then |s| else |KonamiSequence|
    ensures r <= s[|s| - |r|..]
  {
    if |s| <= |KonamiSequence| then s else s[|s| - |KonamiSequence|..]
  }

  /** `buffer.every((key, index) => key === KONAMI_SEQUENCE[index])`. */
  predicate EveryMatches(buffer: seq<Key>) {
    forall i :: 0 <= i < |buffer| ==> i < |KonamiSequence| && buffer[i] == KonamiSequence[i]
  }

  /** The state of the listener: the buffer (a closure variable) and the `unlocked` flag. */
  datatype PortalState = PortalState(buffer: seq<Key>, unlocked: bool)

  /**
   * handleKey, as a function of the state before the key event and the event's
   * key: the buffer never holds more than ten keys, Escape locks the portal and
   * empties the buffer, and unlocking empties the buffer.
   */
  function Step(st: PortalState, key: Key): (r: PortalState)
    ensures |r.buffer| <= |KonamiSequence|
    ensures key == Escape ==> r == PortalState([], false)
    ensures r.unlocked && !st.unlocked ==> r.buffer == []
  {
    var buffer := Slice(st.buffer + [NormalizeKey(key)], -|KonamiSequence|, |st.buffer| + 1);
    var afterMatch :=
      if |buffer| == |KonamiSequence| && EveryMatches(buffer) then PortalState([], true)
      else PortalState(buffer, st.unlocked);
    if key == Escape then PortalState([], false) else afterMatch
  }

  /** The state after a sequence of key events, the first one first. */
  function Feed(st: PortalState, keys: seq<Key>): PortalState
    decreases |keys|
  {
    if keys == [] then st else Step(Feed(st, keys[..|keys| - 1]), keys[|keys| - 1])
  }

  /** The listener, with the buffer and the React state it updates. */
  class KonamiPortal {
    var buffer: seq<Key>
    var unlocked: bool

    /** The component mounts locked, with an empty buffer. */
    constructor ()
      ensures buffer == [] && !unlocked
    {
      buffer := [];
      unlocked := false;
    }

    /** The `every` check, written as the loop over the buffer it is. */
    static method AllMatch(b: seq<Key>) returns (matched: bool)
      ensures matched <==> EveryMatches(b)
    {
      matched := true;
      var index := 0;
      while index < |b|
        invariant 0 <= index <= |b|
        invariant matched <==> EveryMatches(b[..index])
      {
        assert b[..index + 1] == b[..index] + [b[index]];
        matched := matched && index < |KonamiSequence| && b[index] == KonamiSequence[index];
        index := index + 1;
      }
      assert b[..index] == b;
    }

    /** handleKey: buffer the normalised key, unlock on a full match, lock on Escape. */
    method HandleKey(key: Key)
      modifies this
      ensures PortalState(buffer, unlocked) == Step(PortalState(old(buffer), old(unlocked)), key)
    {
      var normalizedKey := if |key| == 1 then ToLower(key) else key;
      buffer := Slice(buffer + [normalizedKey], -|KonamiSequence|, |buffer| + 1);
      if |buffer| == |KonamiSequence| {
        var matched := AllMatch(buffer);
        if matched {
          unlocked := true;
          buffer := [];
        }
      }
      if key == Escape {
        unlocked := false;
        buffer := [];
      }
    }
  }

  // ---------------------------------------------------------------------------
  // Properties

  /** `slice(-10)` keeps the last ten elements. */
  lemma SliceLast10(s: seq<Key>)
    ensures Slice(s, -|KonamiSequence|, |s|) == Last10(s)
  {
    var a := RelativeIndex(-|KonamiSequence|, |s|);
    assert a == if |s| <= |KonamiSequence| then 0 else |s| - |KonamiSequence|;
  }

  /** A ten-element buffer every element of which matches is the Konami sequence. */
  lemma EveryMatchesFull(b: seq<Key>)
    requires |b| == |KonamiSequence|
    ensures EveryMatches(b) <==> b == KonamiSequence
  {
  }

  /** One key step: the buffer becomes the last ten keys, or is cleared on a match or on Escape. */
  lemma StepShape(st: PortalState, key: Key)
    ensures var b := Last10(st.buffer + [NormalizeKey(key)]);
            var matched := b == KonamiSequence;
            Step(st, key) ==
              if key == Escape then PortalState([], false)
              else if matched then PortalState([], true)
              else PortalState(b, st.unlocked)
  {
    var b := Last10(st.buffer + [NormalizeKey(key)]);
    SliceLast10(st.buffer + [NormalizeKey(key)]);
    if |b| == |KonamiSequence| {
      EveryMatchesFull(b);
    }
  }

  /** One-character keys count lowercased: "B" and "A" are buffered as "b" and "a"; key names such as "ArrowUp" are kept. */
  lemma CapitalLettersCount()
    ensures NormalizeKey("B") == "b" && NormalizeKey("A") == "a"
    ensures NormalizeKey("ArrowUp") == "ArrowUp"
  {
    assert ToLower("B")[0] == LowerChar('B');
    assert ToLower("A")[0] == LowerChar('A');
  }

  /** The last ten of the last ten, extended by one, are the last ten of the whole extended sequence. */
  lemma Last10Snoc(s: seq<Key>, x: Key)
    ensures Last10(Last10(s) + [x]) == Last10(s + [x])
  {
    var n := |KonamiSequence|;
    var v := s + [x];
    if |s| >= n {
      var t := s[|s| - n..];
      assert Last10(s) == t;
      assert (t + [x])[1..] == v[|v| - n..];
    } else {
      assert Last10(s) == s;
    }
  }

  /**
   * The buffer holds the last ten normalised keys since the previous clear:
   * if it is the last ten of `since`, after one key it is empty (a match or
   * Escape) or the last ten of `since` extended by that key.
   */
  lemma StepKeepsLastTen(st: PortalState, since: seq<Key>, key: Key)
    requires st.buffer == Last10(since)
    ensures Step(st, key).buffer == [] || Step(st, key).buffer == Last10(since + [NormalizeKey(key)])
  {
    StepShape(st, key);
    Last10Snoc(since, NormalizeKey(key));
  }

  /** `unlocked` is set exactly when the key is not Escape and the portal was unlocked or the buffer now spells the sequence. */
  lemma UnlockIff(st: PortalState, key: Key)
    ensures Step(st, key).unlocked
        <==> key != Escape && (st.unlocked || Last10(st.buffer + [NormalizeKey(key)]) == KonamiSequence)
  {
    StepShape(st, key);
  }

  /** A key that unlocks a locked portal completes the sequence, and the buffer is emptied. */
  lemma UnlockingKeyCompletes(st: PortalState, key: Key)
    requires !st.unlocked && Step(st, key).unlocked
    ensures Last10(st.buffer + [NormalizeKey(key)]) == KonamiSequence
    ensures Step(st, key).buffer == []
  {
    StepShape(st, key);
  }

  /** Escape always locks the portal and empties the buffer. */
  lemma EscapeLocks(st: PortalState)
    ensures Step(st, Escape) == PortalState([], false)
  {
  }

  /** Apart from Escape no key locks an unlocked portal. */
  lemma OnlyEscapeRelocks(st: PortalState, key: Key)
    requires st.unlocked && key != Escape
    ensures Step(st, key).unlocked
  {
    UnlockIff(st, key);
  }

  /** A key that neither completes the sequence nor is Escape leaves `unlocked` as it was. */
  lemma OtherKeysKeepUnlocked(st: PortalState, key: Key)
    requires key != Escape && Last10(st.buffer + [NormalizeKey(key)]) != KonamiSequence
    ensures Step(st, key).unlocked == st.unlocked
  {
    StepShape(st, key);
  }

  /** Typed keys whose normalised names are the Konami sequence, such as the sequence itself or with "B" and "A". */
  predicate SpellsKonami(keys: seq<Key>) {
    |keys| == |KonamiSequence| && forall i :: 0 <= i < |keys| ==> NormalizeKey(keys[i]) == KonamiSequence[i]
  }

  /** Escape is not part of the sequence, and only its last key is "a". */
  lemma SequenceKeys()
    ensures forall i :: 0 <= i < |KonamiSequence| ==> KonamiSequence[i] != Escape
    ensures forall i :: 0 <= i < |KonamiSequence| - 1 ==> KonamiSequence[i] != "a"
  {
  }

  /** A key whose normalised name is a key of the sequence is not Escape. */
  lemma SpelledKeyIsNotEscape(key: Key, i: nat)
    requires i < |KonamiSequence| && NormalizeKey(key) == KonamiSequence[i]
    ensures key != Escape
  {
    SequenceKeys();
    assert NormalizeKey(Escape) == Escape;
  }

  /** Extending a prefix of `t` by its next element. */
  lemma AppendPrefixSnoc<T>(s: seq<T>, t: seq<T>, j: nat)
    requires 0 < j <= |t|
    ensures (s + t[..j - 1]) + [t[j - 1]] == s + t[..j]
    ensures s + t[..0] == s
  {
    assert t[..j] == t[..j - 1] + [t[j - 1]];
  }

  /** A key that spells the next key of the sequence, other than its last, is buffered and clears nothing. */
  lemma TypingStep(prev: PortalState, before: seq<Key>, key: Key, j: nat)
    requires 0 < j < |KonamiSequence| && NormalizeKey(key) == KonamiSequence[j - 1]
    requires prev.buffer == before || prev.buffer == Last10(before)
    ensures Step(prev, key) == PortalState(Last10(before + [KonamiSequence[j - 1]]), prev.unlocked)
  {
    SpelledKeyIsNotEscape(key, j - 1);
    Last10Snoc(before, NormalizeKey(key));
    var b := Last10(before + [KonamiSequence[j - 1]]);
    assert b[|b| - 1] == KonamiSequence[j - 1];
    SequenceKeys();
    StepShape(prev, key);
  }

  /** Feeding a prefix one key longer is one more step. */
  lemma FeedPrefix(st: PortalState, keys: seq<Key>, j: nat)
    requires 0 < j <= |keys|
    ensures Feed(st, keys[..j]) == Step(Feed(st, keys[..j - 1]), keys[j - 1])
  {
    assert keys[..j][..j - 1] == keys[..j - 1];
  }

  /** The state after typing the first `j` keys of the sequence, when no key of them clears anything. */
  function Typed(st: PortalState, j: nat): PortalState
    requires j <= |KonamiSequence|
  {
    if j == 0 then st else PortalState(Last10(st.buffer + KonamiSequence[..j]), st.unlocked)
  }

  /** Typing one more key of the sequence, other than its last, moves from one typed state to the next. */
  lemma TypingPrefixStep(st: PortalState, keys: seq<Key>, j: nat)
    requires SpellsKonami(keys) && 0 < j < |keys|
    requires Feed(st, keys[..j - 1]) == Typed(st, j - 1)
    ensures Feed(st, keys[..j]) == Typed(st, j)
  {
    var prev := Feed(st, keys[..j - 1]);
    FeedPrefix(st, keys, j);
    AppendPrefixSnoc(st.buffer, KonamiSequence, j);
    if j == 1 {
      TypingStep(prev, st.buffer, keys[0], 1);
    } else {
      TypingStep(prev, st.buffer + KonamiSequence[..j - 1], keys[j - 1], j);
    }
  }

  /** While the sequence is being typed nothing is cleared: before its last key no buffer ends with "a". */
  lemma {:induction false} TypingPrefix(st: PortalState, keys: seq<Key>, j: nat)
    requires SpellsKonami(keys) && j < |keys|
    ensures Feed(st, keys[..j]) == Typed(st, j)
  {
    if j == 0 {
      assert keys[..0] == [];
    } else {
      TypingPrefix(st, keys, j - 1);
      TypingPrefixStep(st, keys, j);
    }
  }

  /** The last key of the sequence, after the first nine, completes it. */
  lemma TypingLastKey(st: PortalState, key: Key)
    requires NormalizeKey(key) == KonamiSequence[|KonamiSequence| - 1]
    ensures Step(Typed(st, |KonamiSequence| - 1), key) == PortalState([], true)
  {
    var j := |KonamiSequence| - 1;
    var prev := Typed(st, j);
    SpelledKeyIsNotEscape(key, j);
    var before := st.buffer + KonamiSequence[..j];
    Last10Snoc(before, NormalizeKey(key));
    AppendPrefixSnoc(st.buffer, KonamiSequence, j + 1);
    assert KonamiSequence[..j + 1] == KonamiSequence;
    var all := st.buffer + KonamiSequence;
    assert all[|all| - |KonamiSequence|..] == KonamiSequence;
    StepShape(prev, key);
  }

  /** From any state, typing the Konami sequence (with or without Shift on "b" and "a") unlocks the portal and empties the buffer. */
  lemma TypingKonamiUnlocks(st: PortalState, keys: seq<Key>)
    requires SpellsKonami(keys)
    ensures Feed(st, keys) == PortalState([], true)
  {
    var j := |keys| - 1;
    TypingPrefix(st, keys, j);
    FeedPrefix(st, keys, j + 1);
    assert keys[..j + 1] == keys;
    TypingLastKey(st, keys[j]);
  }

  /** With Shift held, "B" and "A" still complete the code. */
  lemma ShiftedKonamiUnlocks()
    ensures Feed(PortalState([], false), ["ArrowUp", "ArrowUp", "ArrowDown", "ArrowDown", "ArrowLeft", "ArrowRight", "ArrowLeft", "ArrowRight", "B", "A"]) == PortalState([], true)
  {
    var keys := ["ArrowUp", "ArrowUp", "ArrowDown", "ArrowDown", "ArrowLeft", "ArrowRight", "ArrowLeft", "ArrowRight", "B", "A"];
    CapitalLettersCount();
    assert SpellsKonami(keys);
    TypingKonamiUnlocks(PortalState([], false), keys);
  }
}
