/**
 * The display-name generator of server.js (`generateUsername`): a candidate is
 * four letters, each picked as `chars.charAt(Math.floor(Math.random() * 26))`,
 * and candidates are drawn until one is not a key of `sockets`.
 *
 * `Math.random` is an oracle: a finite sequence `draws` of the values it
 * returned, consumed four per attempt, in order.
 */
module Names {
  import opened Wrappers

  const Alphabet: string := "abcdefghijklmnopqrstuvwxyz"
  const NameLength: nat := 4

  predicate Lowercase(w: string)
  {
    forall i :: 0 <= i < |w| ==> 'a' <= w[i] <= 'z'
  }

  /** The shape of every generated name: four lower-case letters. */
  predicate IsName(w: string)
  {
    |w| == NameLength && Lowercase(w)
  }

  /** `Math.random()` returns a value in [0, 1). */
  predicate Unit(r: real)
  {
    0.0 <= r < 1.0
  }

  predicate AllUnit(ds: seq<real>)
  {
    forall i :: 0 <= i < |ds| ==> Unit(ds[i])
  }

  lemma AlphabetIsLowercase()
    ensures |Alphabet| == 26 && Lowercase(Alphabet)
  {
  }

  /** `Math.floor(Math.random() * chars.length)` always indexes `chars`. */
  function LetterIndex(r: real): (i: int)
    requires Unit(r)
    ensures 0 <= i < |Alphabet|
  {
    (r * (|Alphabet| as real)).Floor
  }

  /** `chars.charAt(...)` for one random draw. */
  function Letter(r: real): (c: char)
    requires Unit(r)
    ensures 'a' <= c <= 'z'
  {
    AlphabetIsLowercase();
    Alphabet[LetterIndex(r)]
  }

  /** The string built by appending one letter per draw, as the inner `for` loop does. */
  function Letters(ds: seq<real>): (w: string)
    requires AllUnit(ds)
    ensures |w| == |ds|
    ensures forall i :: 0 <= i < |ds| ==> w[i] == Letter(ds[i])
    decreases |ds|
  {
    if ds == [] then "" else Letters(ds[..|ds| - 1]) + [Letter(ds[|ds| - 1])]
  }

  /** Whether the draws suffice for attempt number `k`. */
  predicate HasAttempt(ds: seq<real>, k: nat)
  {
    (k + 1) * NameLength <= |ds|
  }

  /** The candidate of attempt number `k` (counting from 0). */
  function Attempt(ds: seq<real>, k: nat): (w: string)
    requires AllUnit(ds) && HasAttempt(ds, k)
    ensures IsName(w)
  {
    Letters(ds[k * NameLength .. (k + 1) * NameLength])
  }

  /**
   * What the retry loop returns when it starts at attempt `k`: the first
   * candidate not in `taken`, or None if the draws run out first.
   */
  function FirstFreeFrom(ds: seq<real>, taken: set<string>, k: nat): (r: Option<string>)
    requires AllUnit(ds)
    ensures r.Some? ==> IsName(r.value) && r.value !in taken
    ensures !HasAttempt(ds, k) ==> r.None?
    decreases |ds| - k * NameLength
  {
    if !HasAttempt(ds, k) then None
    else if Attempt(ds, k) !in taken then Some(Attempt(ds, k))
    else FirstFreeFrom(ds, taken, k + 1)
  }

  /** `generateUsername()` against the live names `taken`. */
  function FirstFree(ds: seq<real>, taken: set<string>): (r: Option<string>)
    requires AllUnit(ds)
    ensures r.Some? ==> IsName(r.value) && r.value !in taken
  {
    FirstFreeProperties(ds, taken, 0);
    FirstFreeFrom(ds, taken, 0)
  }

  /**
   * From attempt `k` on, the loop returns the first free candidate, only a
   * candidate that is free, and nothing only when every remaining one is taken.
   */
  lemma {:induction false} FirstFreeProperties(ds: seq<real>, taken: set<string>, k: nat)
    requires AllUnit(ds)
    ensures var r := FirstFreeFrom(ds, taken, k);
            && (r.Some? ==> IsName(r.value) && r.value !in taken)
            && (r.Some? ==> exists j :: k <= j && HasAttempt(ds, j) && r.value == Attempt(ds, j)
                                        && forall i :: k <= i < j ==> Attempt(ds, i) in taken)
            && (r.None? <==> forall i :: k <= i && HasAttempt(ds, i) ==> Attempt(ds, i) in taken)
    decreases |ds| - k * NameLength
  {
    if HasAttempt(ds, k) && Attempt(ds, k) in taken {
      FirstFreeProperties(ds, taken, k + 1);
      var r := FirstFreeFrom(ds, taken, k);
      if r.Some? {
        var j :| k + 1 <= j && HasAttempt(ds, j) && r.value == Attempt(ds, j)
                && forall i :: k + 1 <= i < j ==> Attempt(ds, i) in taken;
        assert forall i :: k <= i < j ==> Attempt(ds, i) in taken;
      }
    } else if !HasAttempt(ds, k) {
      forall i | k <= i ensures !HasAttempt(ds, i) {
        assert (k + 1) * NameLength <= (i + 1) * NameLength;
      }
    }
  }

  /**
   * With nobody online and every draw 0, the first candidate "aaaa" is
   * returned: the only names avoided are the live ones.
   */
  lemma AllZeroDrawsGiveAaaa(ds: seq<real>)
    requires |ds| == NameLength && forall i :: 0 <= i < |ds| ==> ds[i] == 0.0
    ensures FirstFree(ds, {}) == Some("aaaa")
  {
    assert HasAttempt(ds, 0);
    var w := Attempt(ds, 0);
    assert ds[0 .. NameLength] == ds;
    assert forall i :: 0 <= i < |ds| ==> Letter(ds[i]) == 'a';
    assert w == "aaaa";
  }
}
