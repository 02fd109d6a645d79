/** The closed registry of the 28 states (utils/constants.py): names,
    index-aligned two-letter initials, the name-to-initial map and the
    per-state colour map. */
module Registry {
  import opened Wrappers
  import Palette

  const IndianStates: seq<string> := [
    "Andhra Pradesh", "Arunachal Pradesh", "Assam", "Bihar", "Chhattisgarh", "Goa", "Gujarat",
    "Haryana", "Himachal Pradesh", "Jharkhand", "Karnataka", "Kerala", "Madhya Pradesh",
    "Maharashtra", "Manipur", "Meghalaya", "Mizoram", "Nagaland", "Odisha", "Punjab",
    "Rajasthan", "Sikkim", "Tamil Nadu", "Telangana", "Tripura", "Uttar Pradesh",
    "Uttarakhand", "West Bengal"
  ]

  const IndianStateInitials: seq<string> := [
    "AP", "AR", "AS", "BR", "CG", "GA", "GJ", "HR", "HP", "JH",
    "KA", "KL", "MP", "MH", "MN", "ML", "MZ", "NL", "OR", "PB",
    "RJ", "SK", "TN", "TS", "TR", "UP", "UK", "WB"
  ]

  /** `dict(zip(keys, values))`: pairs up to the shorter sequence, a later
      key overriding an earlier one (`ZipMapDomain`, `ZipMapLast`). */
  function ZipMap<K, V>(keys: seq<K>, values: seq<V>): (m: map<K, V>)
    ensures forall k :: k in m ==> k in keys
    decreases |keys|
  {
    var n := Shorter(keys, values);
    if n == 0 then map[]
    else ZipMap(keys[..n - 1], values[..n - 1])[keys[n - 1] := values[n - 1]]
  }

  /** The number of pairs `zip` forms. */
  function Shorter<K, V>(keys: seq<K>, values: seq<V>): (n: nat)
    ensures n <= |keys| && n <= |values| && (n == |keys| || n == |values|)
  {
    if |keys| < |values| then |keys| else |values|
  }

  /** A later key overrides an earlier one: a key whose last occurrence among
      the zipped pairs is at index i maps to the i-th value. */
  lemma {:induction false} ZipMapLast<K, V>(keys: seq<K>, values: seq<V>, i: nat)
    requires i < Shorter(keys, values)
    requires forall j :: i < j < Shorter(keys, values) ==> keys[j] != keys[i]
    ensures keys[i] in ZipMap(keys, values) && ZipMap(keys, values)[keys[i]] == values[i]
    decreases |keys|
  {
    var n := Shorter(keys, values);
    if i < n - 1 {
      var ks, vs := keys[..n - 1], values[..n - 1];
      assert Shorter(ks, vs) == n - 1 && ks[i] == keys[i] && vs[i] == values[i];
      assert forall j :: i < j < n - 1 ==> ks[j] == keys[j];
      ZipMapLast(ks, vs, i);
      assert keys[n - 1] != keys[i];
    }
  }

  /** The zipped map is defined exactly on the keys that found a partner. */
  lemma {:induction false} ZipMapDomain<K, V>(keys: seq<K>, values: seq<V>)
    ensures forall k :: k in ZipMap(keys, values) <==> k in keys[..Shorter(keys, values)]
    decreases |keys|
  {
    var n := Shorter(keys, values);
    if n > 0 {
      var ks, vs := keys[..n - 1], values[..n - 1];
      ZipMapDomain(ks, vs);
      assert Shorter(ks, vs) == n - 1;
      assert ks[..n - 1] == keys[..n - 1];
      assert keys[..n] == keys[..n - 1] + [keys[n - 1]];
    }
  }

  /** With distinct keys and equally many values, the zipped map sends the
      i-th key to the i-th value and has exactly the keys given. */
  lemma ZipMapLookup<K, V>(keys: seq<K>, values: seq<V>)
    requires |keys| == |values| && Palette.NoDuplicates(keys)
    ensures forall i :: 0 <= i < |keys| ==> keys[i] in ZipMap(keys, values)
                                             && ZipMap(keys, values)[keys[i]] == values[i]
  {
    forall i | 0 <= i < |keys|
      ensures keys[i] in ZipMap(keys, values) && ZipMap(keys, values)[keys[i]] == values[i]
    {
      ZipMapLast(keys, values, i);
    }
  }

  /** `state_to_initial`. */
  function StateToInitial(): map<string, string>
  {
    ZipMap(IndianStates, IndianStateInitials)
  }

  /** `state_colors`: the i-th state gets colour `i mod |colorList|`; an
      empty colour list makes the modulo raise. */
  function StateColors(colorList: seq<string>): (r: Result<map<string, string>, Palette.PaletteError>)
    ensures r.Success? <==> |colorList| > 0
    ensures r.Success? ==> forall k :: k in r.value ==> k in IndianStates
  {
    var cycled :- Palette.Cycle(colorList, |IndianStates|);
    Success(ZipMap(IndianStates, cycled))
  }

  /** The registry has 28 states and 28 initials, each list free of repeats. */
  lemma RegistryShape()
    ensures |IndianStates| == 28 && |IndianStateInitials| == 28
    ensures Palette.NoDuplicates(IndianStates)
    ensures Palette.NoDuplicates(IndianStateInitials)
  {
    StatesDistinct();
    InitialsDistinct();
  }

  lemma StatesDistinct()
    ensures Palette.NoDuplicates(IndianStates)
  {
    StatesBlock0();
    StatesBlock1();
    StatesBlock2();
    StatesBlock3();
    StatesBlock4();
  }

  // No state in the block's rows repeats later in the list.

  lemma StatesBlock0()
    ensures forall i, j :: 0 <= i < 2 && i < j < |IndianStates| ==> IndianStates[i] != IndianStates[j]
  {
  }

  lemma StatesBlock1()
    ensures forall i, j :: 2 <= i < 4 && i < j < |IndianStates| ==> IndianStates[i] != IndianStates[j]
  {
  }

  lemma StatesBlock2()
    ensures forall i, j :: 4 <= i < 9 && i < j < |IndianStates| ==> IndianStates[i] != IndianStates[j]
  {
  }

  lemma StatesBlock3()
    ensures forall i, j :: 9 <= i < 15 && i < j < |IndianStates| ==> IndianStates[i] != IndianStates[j]
  {
  }

  lemma StatesBlock4()
    ensures forall i, j :: 15 <= i < 28 && i < j < |IndianStates| ==> IndianStates[i] != IndianStates[j]
  {
  }

  lemma InitialsDistinct()
    ensures Palette.NoDuplicates(IndianStateInitials)
  {
    InitialsBlock0();
    InitialsBlock1();
    InitialsBlock2();
    InitialsBlock3();
    InitialsBlock4();
  }

  // No initials in the block's rows repeats later in the list.

  lemma InitialsBlock0()
    ensures forall i, j :: 0 <= i < 2 && i < j < |IndianStateInitials| ==> IndianStateInitials[i] != IndianStateInitials[j]
  {
  }

  lemma InitialsBlock1()
    ensures forall i, j :: 2 <= i < 4 && i < j < |IndianStateInitials| ==> IndianStateInitials[i] != IndianStateInitials[j]
  {
  }

  lemma InitialsBlock2()
    ensures forall i, j :: 4 <= i < 9 && i < j < |IndianStateInitials| ==> IndianStateInitials[i] != IndianStateInitials[j]
  {
  }

  lemma InitialsBlock3()
    ensures forall i, j :: 9 <= i < 15 && i < j < |IndianStateInitials| ==> IndianStateInitials[i] != IndianStateInitials[j]
  {
  }

  lemma InitialsBlock4()
    ensures forall i, j :: 15 <= i < 28 && i < j < |IndianStateInitials| ==> IndianStateInitials[i] != IndianStateInitials[j]
  {
  }

  /** `state_to_initial[indian_states[i]] == indian_state_initials[i]`, it
      is defined exactly on the registry, and it is injective. */
  lemma StateToInitialAligned()
    ensures forall i :: 0 <= i < 28 ==> IndianStates[i] in StateToInitial()
                                          && StateToInitial()[IndianStates[i]] == IndianStateInitials[i]
    ensures forall s :: s in StateToInitial() <==> s in IndianStates
    ensures forall s, t :: s in StateToInitial() && t in StateToInitial() && s != t ==>
              StateToInitial()[s] != StateToInitial()[t]
  {
    RegistryShape();
    ZipMapLookup(IndianStates, IndianStateInitials);
    ZipMapInjective(IndianStates, IndianStateInitials);
  }

  /** Distinct keys zipped with distinct values give an injective map
      defined exactly on the keys. */
  lemma ZipMapInjective<K, V>(keys: seq<K>, values: seq<V>)
    requires |keys| == |values| && Palette.NoDuplicates(keys) && Palette.NoDuplicates(values)
    ensures forall k :: k in ZipMap(keys, values) <==> k in keys
    ensures forall s, t :: s in ZipMap(keys, values) && t in ZipMap(keys, values) && s != t ==>
              ZipMap(keys, values)[s] != ZipMap(keys, values)[t]
  {
    ZipMapLookup(keys, values);
    var m := ZipMap(keys, values);
    forall s, t | s in m && t in m && s != t
      ensures m[s] != m[t]
    {
      var i :| 0 <= i < |keys| && keys[i] == s;
      var j :| 0 <= j < |keys| && keys[j] == t;
      assert i != j;
    }
  }

  /** `state_colors[indian_states[i]] == color_list[i % len(color_list)]`. */
  lemma StateColorsAligned(colorList: seq<string>)
    requires |colorList| > 0
    ensures forall i :: 0 <= i < 28 ==>
              (IndianStates[i] in StateColors(colorList).value
               && StateColors(colorList).value[IndianStates[i]] == colorList[i % |colorList|])
  {
    RegistryShape();
    var cycled := Palette.Cycle(colorList, |IndianStates|).value;
    ZipMapLookup(IndianStates, cycled);
  }

  /** `Series.map(state_to_initial)`: the initial of a registered state,
      missing for any other name. */
  function InitialOf(state: string): (r: Option<string>)
    ensures r.Some? <==> state in IndianStates
    ensures forall i :: 0 <= i < 28 && IndianStates[i] == state ==> r == Some(IndianStateInitials[i])
  {
    StateToInitialAligned();
    if state in StateToInitial() then Some(StateToInitial()[state]) else None
  }
}
