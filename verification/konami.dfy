/** The Konami-code easter egg of folio.js: a position into the ten-key code
    that advances on the expected key, fires and rewinds after the last
    one, and drops to 0 on any other key without looking at that key
    again. */
module Konami {

  const Code: seq<string> := ["ArrowUp", "ArrowUp", "ArrowDown", "ArrowDown",
                              "ArrowLeft", "ArrowRight", "ArrowLeft", "ArrowRight", "b", "a"]

  /** The position after a keydown, and whether `activateEasterEgg` ran. */
  datatype KeyResult = KeyResult(position: nat, fired: bool)

  /** The keydown listener. A position past the end would compare the key
      with `undefined`, which no key equals. */
  function Keydown(position: nat, key: string): (r: KeyResult)
    ensures r.position < |Code|
    ensures r.fired <==> position == |Code| - 1 && key == Code[|Code| - 1]
    ensures r.fired ==> r.position == 0
    ensures !r.fired ==> (r.position != 0 <==> position < |Code| && key == Code[position])
    ensures r.position != 0 ==> r.position == position + 1
  {
    if position < |Code| && key == Code[position] then
      if position + 1 == |Code| then KeyResult(0, true) else KeyResult(position + 1, false)
    else KeyResult(0, false)
  }

  /** A mismatching key is not compared again with the start of the code:
      after two "ArrowUp", a third one resets to 0 rather than to 1. */
  lemma MismatchNotRechecked()
    ensures Code[0] == "ArrowUp"
    ensures Keydown(2, "ArrowUp") == KeyResult(0, false)
  {
  }

  /** The position after a sequence of keys. */
  function Final(start: nat, keys: seq<string>): (p: nat)
    ensures keys != [] ==> p < |Code|
    decreases |keys|
  {
    if keys == [] then start
    else Keydown(Final(start, keys[..|keys| - 1]), keys[|keys| - 1]).position
  }

  /** Whether the `i`-th key of the sequence fires the easter egg. */
  predicate FiresAt(start: nat, keys: seq<string>, i: nat)
    requires i < |keys|
  {
    Keydown(Final(start, keys[..i]), keys[i]).fired
  }

  /** From 0, the position is the length of a run of code keys just typed:
      the last `p` keys are the first `p` keys of the code. */
  lemma {:induction false} FinalIsTypedPrefix(keys: seq<string>)
    ensures var p := Final(0, keys);
      p <= |keys| && p <= |Code| && keys[|keys| - p..] == Code[..p]
    decreases |keys|
  {
    if keys != [] {
      var init := keys[..|keys| - 1];
      var k := keys[|keys| - 1];
      FinalIsTypedPrefix(init);
      var q := Final(0, init);
      var p := Final(0, keys);
      if p != 0 {
        assert p == q + 1 && k == Code[q];
        assert keys == init + [k];
        ExtendTypedPrefix(init, k, q);
      }
    }
  }

  /** One more matching key extends the typed run by one. */
  lemma ExtendTypedPrefix(init: seq<string>, k: string, q: nat)
    requires q <= |init| && q < |Code| && init[|init| - q..] == Code[..q] && k == Code[q]
    ensures (init + [k])[|init| - q..] == Code[..q + 1]
  {
    assert (init + [k])[|init| - q..] == init[|init| - q..] + [k];
    assert Code[..q + 1] == Code[..q] + [Code[q]];
  }

  /** The easter egg fires only right after the full code was typed. */
  lemma FiresOnlyAfterCode(keys: seq<string>, i: nat)
    requires i < |keys| && FiresAt(0, keys, i)
    ensures i >= |Code| - 1 && keys[i - (|Code| - 1)..i + 1] == Code
  {
    FinalIsTypedPrefix(keys[..i]);
    var q := Final(0, keys[..i]);
    assert q == |Code| - 1;
    assert keys[..i][i - q..] == keys[i - q..i];
    assert keys[i - q..i + 1] == keys[i - q..i] + [keys[i]];
    assert Code == Code[..q] + [Code[q]];
  }

  /** Typing the first `n` code keys from 0 reaches position `n`. */
  lemma {:induction false} CodePrefixReaches(n: nat)
    requires n < |Code|
    ensures Final(0, Code[..n]) == n
  {
    if n > 0 {
      assert Code[..n][..n - 1] == Code[..n - 1];
      CodePrefixReaches(n - 1);
    }
  }

  /** Typing the code from 0 fires on the tenth key and on no earlier one,
      and leaves the position at 0. */
  lemma CodeFiresOnTenthKey()
    ensures forall i :: 0 <= i < |Code| ==> (FiresAt(0, Code, i) <==> i == |Code| - 1)
    ensures Final(0, Code) == 0
  {
    forall i | 0 <= i < |Code|
      ensures FiresAt(0, Code, i) <==> i == |Code| - 1
    {
      CodePrefixReaches(i);
    }
    CodePrefixReaches(|Code| - 1);
    assert Code[..|Code| - 1] == Code[..9];
  }

  /** The last ten keys of "Up Up Up Down Down Left Right Left Right b a"
      are the code, yet nothing fires: the third "ArrowUp" resets the
      position and is not counted as a new start. */
  lemma ExtraUpNeverFires()
    ensures var keys := ["ArrowUp"] + Code;
      && keys[1..] == Code
      && forall i :: 0 <= i < |keys| ==> !FiresAt(0, keys, i)
  {
    var keys := ["ArrowUp"] + Code;
    assert Final(0, keys[..0]) == 0;
    assert keys[..1][..0] == keys[..0];
    assert Final(0, keys[..1]) == 1;
    assert keys[..2][..1] == keys[..1];
    assert Final(0, keys[..2]) == 2;
    assert keys[..3][..2] == keys[..2];
    assert Final(0, keys[..3]) == 0;
    forall i | 3 <= i <= |keys|
      ensures Final(0, keys[..i]) == 0
    {
      StaysAtZero(keys, i);
    }
  }

  /** Once at 0 after the first three keys, no later key of the sequence is
      "ArrowUp", so the position stays 0. */
  lemma {:induction false} StaysAtZero(keys: seq<string>, i: nat)
    requires keys == ["ArrowUp"] + Code && 3 <= i <= |keys|
    requires Final(0, keys[..3]) == 0
    ensures Final(0, keys[..i]) == 0
    decreases i
  {
    if i > 3 {
      StaysAtZero(keys, i - 1);
      assert keys[..i][..i - 1] == keys[..i - 1];
      assert keys[i - 1] != Code[0];
    }
  }
}
