/** What the decoder of recvseg finds in arbitrary input, by positions in it. */
module FrameLaws {

  import opened SegFrame

  /** How many '!' stand directly before k. */
  function Bangs(s: Bytes, k: nat): (n: nat)
    requires k <= |s|
    ensures n <= k
  {
    if k == 0 || s[k - 1] != '!' then 0 else 1 + Bangs(s, k - 1)
  }

  /** Behind a frame the decoder reads '!' in pairs with the byte that follows, so an '&' opens a frame
      only behind an odd number of them: "!!&" opens none. */
  predicate OpensAt(s: Bytes, k: int) {
    0 <= k < |s| && s[k] == '&' && Bangs(s, k) % 2 == 1
  }

  ghost predicate FirstOpening(s: Bytes, e: int) {
    OpensAt(s, e) && forall i :: 0 <= i < e ==> !OpensAt(s, i)
  }

  ghost predicate FirstEnding(s: Bytes, e: int) {
    EndsAt(s, e) && forall i :: 0 <= i < e ==> !EndsAt(s, i)
  }

  /** Everything up to the first opening is skipped. */
  lemma {:induction false} SkipsToOpening(s: Bytes, k: nat, e: nat)
    requires k <= e && FirstOpening(s, e)
    ensures NextFrame(s[k..], Bangs(s, k) % 2, []) == NextFrame(s[e + 1..], 2, [])
    decreases e - k
  {
    assert s[k..][0] == s[k] && s[k..][1..] == s[k + 1..];
    if k < e {
      assert !OpensAt(s, k);
      SkipsToOpening(s, k + 1, e);
    }
  }

  lemma {:induction false} NothingOpens(s: Bytes, k: nat)
    requires k <= |s| && forall i :: !OpensAt(s, i)
    ensures NextFrame(s[k..], Bangs(s, k) % 2, []) == Nothing
    decreases |s| - k
  {
    if k < |s| {
      assert s[k..][0] == s[k] && s[k..][1..] == s[k + 1..];
      assert !OpensAt(s, k);
      NothingOpens(s, k + 1);
    }
  }

  lemma {:induction false} NothingEnds(s: Bytes, k: nat)
    requires k <= |s| && forall i :: !EndsAt(s, i)
    ensures NextFrame(s[k..], if k > 0 && s[k - 1] == '!' then 3 else 2, s[..k]) == Nothing
    decreases |s| - k
  {
    if k < |s| {
      assert s[k..][0] == s[k] && s[k..][1..] == s[k + 1..];
      assert k > 0 ==> !EndsAt(s, k - 1);
      assert s[..k] + [s[k]] == s[..k + 1];
      NothingEnds(s, k + 1);
    }
  }

  lemma {:induction false} FirstOf(s: Bytes, k: nat) returns (e: nat)
    requires OpensAt(s, k)
    ensures e <= k && FirstOpening(s, e)
    decreases k
  {
    e := k;
    if i :| 0 <= i < k && OpensAt(s, i) {
      e := FirstOf(s, i);
    }
  }

  /** stored is the beginning of body up to its first end mark, and rest is what follows. */
  ghost predicate CutAtEnd(body: Bytes, stored: Bytes, rest: Bytes) {
    body == stored + rest && FirstEnding(body, |stored| - 2)
  }

  /** Behind the start mark there is a frame exactly when an end mark follows. */
  lemma FindsEnd(body: Bytes, stored: Bytes, rest: Bytes)
    ensures NextFrame(body, 2, []) == Found(stored, rest) <==> CutAtEnd(body, stored, rest)
  {
    hide NextFrame;
    assert body[0..] == body && body[..0] == [];
    if k :| EndsAt(body, k) {
      var f := FirstEnd(body, k);
      StopsAtFirstEnd(body, 0, f);
      if CutAtEnd(body, stored, rest) {
        assert |stored| - 2 == f;
      }
      assert body[..f + 2] + body[f + 2..] == body;
    } else {
      NothingEnds(body, 0);
    }
  }

  /** The decoder finds the bytes between the first opening and the first end mark behind it, and
      nothing else: there is a frame exactly when the input holds both. */
  lemma FindsFirstFrame(input: Bytes, stored: Bytes, rest: Bytes)
    ensures NextFrame(input, 0, []) == Found(stored, rest) <==>
            exists e :: FirstOpening(input, e) && CutAtEnd(input[e + 1..], stored, rest)
  {
    hide NextFrame, CutAtEnd;
    assert input[0..] == input;
    if k :| OpensAt(input, k) {
      var e := FirstOf(input, k);
      SkipsToOpening(input, 0, e);
      FindsEnd(input[e + 1..], stored, rest);
    } else {
      NothingOpens(input, 0);
    }
  }
}
