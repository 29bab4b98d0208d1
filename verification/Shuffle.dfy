/** shuffle of aco.c: a random order drawn with a cyclic probe over a table of taken slots. */
module Shuffle {

  /** The size of the scratch tables. */
  const MAX := 13

  /** The elements in slots that are not taken. */
  function Rest(a: seq<int>, taken: seq<bool>): multiset<int>
    requires |a| == |taken|
  {
    if a == [] then multiset{}
    else Rest(a[..|a| - 1], taken[..|a| - 1]) + if taken[|a| - 1] then multiset{} else multiset{a[|a| - 1]}
  }

  lemma {:induction false} RestOfNone(a: seq<int>, taken: seq<bool>)
    requires |a| == |taken| && forall i :: 0 <= i < |a| ==> !taken[i]
    ensures Rest(a, taken) == multiset(a)
  {
    if a != [] {
      RestOfNone(a[..|a| - 1], taken[..|a| - 1]);
      assert a == a[..|a| - 1] + [a[|a| - 1]];
    }
  }

  /** Taking a free slot removes its element. */
  lemma {:induction false} TakeOne(a: seq<int>, taken: seq<bool>, i: nat)
    requires |a| == |taken| && i < |a| && !taken[i]
    ensures Rest(a, taken) == Rest(a, taken[i := true]) + multiset{a[i]}
  {
    var k := |a| - 1;
    var t := taken[i := true];
    if i < k {
      TakeOne(a[..k], taken[..k], i);
      assert t[..k] == taken[..k][i := true];
    } else {
      assert t[..k] == taken[..k];
    }
  }

  /** Whatever is not taken is found by some probe. */
  lemma {:induction false} FreeSlot(a: seq<int>, taken: seq<bool>) returns (i: nat)
    requires |a| == |taken| && |Rest(a, taken)| > 0
    ensures i < |a| && !taken[i]
  {
    var k := |a| - 1;
    if taken[k] {
      i := FreeSlot(a[..k], taken[..k]);
    } else {
      i := k;
    }
  }

  /** How many probes lead from slot i to slot free. */
  function Distance(i: nat, free: nat, n: nat): nat
    requires i < n && free < n
  {
    if i <= free then free - i else free + n - i
  }

  function Mod(a: nat, n: nat): (r: nat)
    requires n > 0
    ensures r < n && (a < n ==> r == a) && (n <= a < 2 * n ==> r == a - n)
  {
    if a >= n && a < 2 * n then
      assert a == n + (a - n);
      a % n
    else a % n
  }

  /** The probe: the first free slot at or after lst, cyclically. */
  method Probe(taken: array<bool>, n: nat, lst: nat, ghost free: nat) returns (slot: nat)
    requires lst < n <= taken.Length && free < n && !taken[free]
    ensures slot < n && !taken[slot]
    ensures forall i: nat :: i < n && !taken[i] ==> Distance(lst, slot, n) <= Distance(lst, i, n)
    ensures forall i: nat :: i < n && (if lst <= slot then lst <= i < slot else lst <= i || i < slot) ==> taken[i]
  {
    hide Mod;
    slot := lst;
    while taken[slot]
      invariant slot < n && Distance(lst, slot, n) + Distance(slot, free, n) == Distance(lst, free, n)
      invariant forall i: nat :: i < n && !taken[i] ==> Distance(lst, i, n) >= Distance(lst, slot, n)
      decreases Distance(slot, free, n)
    {
      slot := Mod(slot + 1, n);
    }
    forall i: nat | i < n {
      PassedIffNearer(lst, slot, i, n);
    }
  }

  /** Slot i is passed on the way up from slot a to slot b: through to the end of the table and on
      from its start if b lies before a. */
  lemma PassedIffNearer(a: nat, b: nat, i: nat, n: nat)
    requires a < n && b < n && i < n
    ensures Distance(a, i, n) < Distance(a, b, n) <==> if a <= b then a <= i < b else a <= i || i < b
  {
  }

  /** Draw t goes to the first slot, cyclically from the last one plus the number drawn, that
      no earlier draw took. */
  ghost predicate Drawn(slots: seq<nat>, t: nat, n: nat, draw: nat)
    requires t < |slots| && n > 0
  {
    var lst := if t == 0 then 0 else slots[t - 1];
    var from := Mod(lst + Mod(draw, n), n);
    && slots[t] < n && slots[t] !in slots[..t]
    && forall i: nat :: i < n && i !in slots[..t] ==> Distance(from, slots[t], n) <= Distance(from, i, n)
  }

  /** r is s in the order drawn. */
  ghost predicate Reordered(s: seq<int>, r: seq<int>, slots: seq<nat>, draws: nat -> nat) {
    |r| == |slots| == |s| && forall t: nat :: t < |slots| ==>
      Drawn(slots, t, |s|, draws(t)) && slots[t] < |s| && r[t] == s[slots[t]]
  }

  /** The first |slots| draws are done. */
  ghost predicate Drawing(s: seq<int>, tmp: seq<int>, taken: seq<bool>, slots: seq<nat>, draws: nat -> nat)
    requires |taken| == |s|
  {
    && |slots| == |tmp| <= |s|
    && (forall t: nat :: t < |slots| ==> Drawn(slots, t, |s|, draws(t)) && slots[t] < |s| && tmp[t] == s[slots[t]])
    && (forall i: nat :: i < |s| ==> (taken[i] <==> i in slots))
    && multiset(tmp) + Rest(s, taken) == multiset(s)
  }

  /** The same in plain arithmetic: counting up from the last slot plus the number drawn, all slots
      before the one the draw goes to went to earlier draws. */
  lemma DrawnUpwards(slots: seq<nat>, t: nat, n: nat, draw: nat)
    requires t < |slots| && n > 0 && Drawn(slots, t, n, draw)
    ensures
      var from := ((if t == 0 then 0 else slots[t - 1]) + draw) % n;
      var to := slots[t];
      && to < n && to !in slots[..t]
      && forall i: nat :: i < n && (if from <= to then from <= i < to else from <= i || i < to) ==> i in slots[..t]
  {
    var last := if t == 0 then 0 else slots[t - 1];
    var from := (last + draw) % n;
    ModPlus(draw, last, n);
    assert from == Mod(last + Mod(draw, n), n);
    hide Distance;
    forall i: nat | i < n && (if from <= slots[t] then from <= i < slots[t] else from <= i || i < slots[t])
      ensures i in slots[..t]
    {
      PassedIffNearer(from, slots[t], i, n);
    }
  }

  lemma ModPlus(a: nat, b: nat, n: nat)
    requires n > 0
    ensures (b + a % n) % n == (b + a) % n
  {
    var q, r := DivMod(a, n);
    var s, u := DivMod(b + r, n);
    assert q * n + s * n == (q + s) * n;
    UniqueRest(b + a, q + s, u, n);
  }

  lemma DivMod(a: nat, n: nat) returns (q: nat, r: nat)
    requires n > 0
    ensures a == q * n + r && r < n && r == a % n
  {
    q, r := a / n, a % n;
  }

  lemma UniqueRest(a: nat, q: nat, r: nat, n: nat)
    requires n > 0 && a == q * n + r && r < n
    ensures a % n == r
  {
    var p, s := a / n, a % n;
    var d := p - q;
    assert a == p * n + s;
    assert d * n == r - s;
    assert d >= 1 ==> d * n >= n;
    assert d <= -1 ==> d * n + n <= 0;
  }

  lemma DrawnStays(slots: seq<nat>, slot: nat, t: nat, n: nat, draw: nat)
    requires t < |slots| && n > 0 && Drawn(slots, t, n, draw)
    ensures Drawn(slots + [slot], t, n, draw)
  {
    hide Distance, Mod;
    assert (slots + [slot])[..t] == slots[..t];
  }

  lemma TakenStays(slots: seq<nat>, taken: seq<bool>, slot: nat)
    requires slot < |taken| && forall i: nat :: i < |taken| ==> (taken[i] <==> i in slots)
    ensures forall i: nat :: i < |taken| ==> (taken[slot := true][i] <==> i in slots + [slot])
  {
  }

  lemma DrawOne(s: seq<int>, tmp: seq<int>, taken: seq<bool>, slots: seq<nat>, draws: nat -> nat, slot: nat)
    requires |taken| == |s| && Drawing(s, tmp, taken, slots, draws) && |slots| < |s| && slot < |s| && !taken[slot]
    requires Drawn(slots + [slot], |slots|, |s|, draws(|slots|))
    ensures Drawing(s, tmp + [s[slot]], taken[slot := true], slots + [slot], draws)
  {
    hide Rest, Drawn;
    var slots', tmp' := slots + [slot], tmp + [s[slot]];
    TakeOne(s, taken, slot);
    TakenStays(slots, taken, slot);
    forall t: nat | t < |slots'|
      ensures Drawn(slots', t, |s|, draws(t)) && slots'[t] < |s| && tmp'[t] == s[slots'[t]]
    {
      if t < |slots| {
        DrawnStays(slots, slot, t, |s|, draws(t));
      }
    }
  }

  /** A probe from where the draw points finds the slot drawn. */
  lemma ProbedIsDrawn(slots: seq<nat>, taken: seq<bool>, lst: nat, draw: nat, slot: nat)
    requires |taken| > 0 && lst == (if slots == [] then 0 else slots[|slots| - 1])
    requires forall i: nat :: i < |taken| ==> (taken[i] <==> i in slots)
    requires slot < |taken| && !taken[slot]
    requires
      var from := Mod(lst + Mod(draw, |taken|), |taken|);
      forall i: nat :: i < |taken| && !taken[i] ==> Distance(from, slot, |taken|) <= Distance(from, i, |taken|)
    ensures Drawn(slots + [slot], |slots|, |taken|, draw)
  {
    hide Distance, Mod;
    assert (slots + [slot])[..|slots|] == slots;
  }

  lemma FreeRemains(s: seq<int>, tmp: seq<int>, taken: seq<bool>, slots: seq<nat>, draws: nat -> nat) returns (i: nat)
    requires |taken| == |s| && Drawing(s, tmp, taken, slots, draws) && |slots| < |s|
    ensures i < |s| && !taken[i]
  {
    assert |multiset(tmp)| == |tmp| && |multiset(s)| == |s|;
    i := FreeSlot(s, taken);
  }

  /** One turn of the drawing loop. */
  method Draw(a: array<int>, n: nat, last: nat, tmp: array<int>, taken: array<bool>, t: nat, draws: nat -> nat,
              ghost s: seq<int>, ghost slots: seq<nat>)
    returns (lst: nat)
    requires n <= a.Length && s == a[..n] && t < n <= tmp.Length && n <= taken.Length && a != tmp
    requires |slots| == t && last == if t == 0 then 0 else slots[t - 1]
    requires Drawing(s, tmp[..t], taken[..n], slots, draws)
    modifies tmp, taken
    ensures lst < n && Drawing(s, tmp[..t + 1], taken[..n], slots + [lst], draws)
  {
    hide Rest, Drawn, Mod, Distance;
    ghost var was := taken[..n];
    ghost var drawn := tmp[..t];
    lst := last + Mod(draws(t), n);
    lst := Mod(lst, n);
    ghost var free := FreeRemains(s, drawn, was, slots, draws);
    assert !was[free];
    lst := Probe(taken, n, lst, free);
    assert forall i: nat :: i < n ==> was[i] == taken[i];
    ProbedIsDrawn(slots, was, last, draws(t), lst);
    DrawOne(s, drawn, was, slots, draws, lst);
    tmp[t] := a[lst];
    taken[lst] := true;
    assert taken[..n] == was[lst := true] && tmp[..t + 1] == drawn + [s[lst]];
  }

  /** The drawing loop: tmp ends as a permutation of the array, in the order drawn. */
  method DrawOrder(a: array<int>, n: nat, draws: nat -> nat) returns (tmp: array<int>, ghost slots: seq<nat>)
    requires n <= a.Length && n <= MAX
    ensures fresh(tmp) && tmp.Length == MAX && |slots| == n
    ensures exists taken :: |taken| == n && Drawing(a[..n], tmp[..n], taken, slots, draws)
  {
    hide Rest, Drawn;
    ghost var s := a[..n];
    tmp := new int[MAX](_ => 0);
    var taken := new bool[MAX](_ => false);
    var lst: nat := 0;
    slots := [];
    RestOfNone(s, taken[..n]);
    for t := 0 to n
      invariant |slots| == t && lst == if t == 0 then 0 else slots[t - 1]
      invariant Drawing(s, tmp[..t], taken[..n], slots, draws)
    {
      lst := Draw(a, n, lst, tmp, taken, t, draws, s, slots);
      slots := slots + [lst];
    }
  }

  /** When all draws are done, tmp is a permutation of the array. */
  lemma DrawnAll(s: seq<int>, tmp: seq<int>, taken: seq<bool>, slots: seq<nat>, draws: nat -> nat)
    requires |taken| == |s| && Drawing(s, tmp, taken, slots, draws) && |slots| == |s|
    ensures multiset(tmp) == multiset(s) && Reordered(s, tmp, slots, draws)
  {
    assert |multiset(tmp)| == |tmp| && |multiset(s)| == |s|;
  }

  method CopyBack(a: array<int>, tmp: array<int>, n: nat)
    requires n <= a.Length && n <= tmp.Length && a != tmp
    modifies a
    ensures a[..n] == tmp[..n] && a[n..] == old(a[n..])
  {
    for i := 0 to n
      invariant a[..i] == tmp[..i] && a[n..] == old(a[n..])
    {
      a[i] := tmp[i];
    }
  }

  /** Whatever is drawn, the array ends as a permutation of what it was, in the order drawn. */
  method ShuffleArray(a: array<int>, n: nat, draws: nat -> nat) returns (ghost slots: seq<nat>)
    requires n <= a.Length && n <= MAX
    modifies a
    ensures multiset(a[..n]) == multiset(old(a[..n]))
    ensures Reordered(old(a[..n]), a[..n], slots, draws)
    ensures a[n..] == old(a[n..])
  {
    hide Drawing, Reordered;
    var tmp;
    tmp, slots := DrawOrder(a, n, draws);
    ghost var taken :| |taken| == n && Drawing(a[..n], tmp[..n], taken, slots, draws);
    DrawnAll(a[..n], tmp[..n], taken, slots, draws);
    CopyBack(a, tmp, n);
  }
}
