/** The source injector `addSource`: every cell of a field grows by the
    matching cell of its source buffer times the time step. */
module Sources {

  /** x after addSource(n, x, s, dt): the first n cells grow by s[i] * dt,
      the rest are not touched. */
  ghost function AddScaled(x: seq<real>, s: seq<real>, n: nat, dt: real): (r: seq<real>)
    requires n <= |x| && n <= |s|
    ensures |r| == |x|
  {
    seq(|x|, i requires 0 <= i < |x| => if i < n then x[i] + s[i] * dt else x[i])
  }

  /** A source buffer of zeros adds nothing. */
  lemma AddZeroSource(x: seq<real>, s: seq<real>, dt: real)
    requires |s| == |x|
    requires forall i :: 0 <= i < |s| ==> s[i] == 0.0
    ensures AddScaled(x, s, |x|, dt) == x
  {
  }

  /** addSource(arrSize, x, s, dt). x and s may be the same buffer: each step
      reads s[i] before it writes x[i]. */
  method AddSource(n: nat, x: array<real>, s: array<real>, dt: real)
    requires n <= x.Length && n <= s.Length
    modifies x
    ensures x[..] == AddScaled(old(x[..]), old(s[..]), n, dt)
    ensures x != s ==> s[..] == old(s[..])
  {
    for i := 0 to n
      invariant forall k :: 0 <= k < i ==> x[k] == old(x[k]) + old(s[k]) * dt
      invariant forall k :: i <= k < x.Length ==> x[k] == old(x[k])
      invariant forall k :: i <= k < s.Length ==> s[k] == old(s[k])
    {
      x[i] := x[i] + s[i] * dt;
    }
    forall k | 0 <= k < x.Length
      ensures x[k] == AddScaled(old(x[..]), old(s[..]), n, dt)[k]
    {
    }
  }
}
