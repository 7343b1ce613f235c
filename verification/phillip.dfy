/** The configuration state of the inference driver (`phillip_main_t` in
    src/phillip.inline.h): string parameters, flags, the filters that pick
    which observations are processed, and the three pluggable components
    an inference needs. */
module Phillip {
  import opened Wrappers

  /** An installed enumerator, ILP converter or ILP solver. Only its
      presence matters here; the name identifies the instance. */
  datatype Component = Component(name: string)

  datatype PhillipMain = PhillipMain(
    lhsEnumerator: Option<Component>,
    ilpConverter: Option<Component>,
    ilpSolver: Option<Component>,
    params: map<string, string>,
    flags: set<string>,
    targetObsNames: set<string>,
    excludedObsNames: set<string>)

  // ---------------------------------------------------------------------
  // Parameters

  /** `param(key)`: the stored value, or the empty string for a missing key. */
  function Param(s: PhillipMain, key: string): (v: string)
    ensures key in s.params ==> v == s.params[key]
    ensures key !in s.params ==> v == ""
  {
    match Lookup(s.params, key)
    case Some(v) => v
    case None => ""
  }

  /** `set_param(key, value)`: `param(key)` becomes `value`; every other
      parameter and all other state stay as they were. */
  function SetParam(s: PhillipMain, key: string, value: string): (r: PhillipMain)
    ensures Param(r, key) == value
    ensures forall k :: k != key ==> Param(r, k) == Param(s, k)
    ensures r.params.Keys == s.params.Keys + {key}
    ensures r == s.(params := r.params)
  {
    s.(params := s.params[key := value])
  }

  /** `erase_param(key)`: `param(key)` reads as the empty string again;
      every other parameter and all other state stay as they were. */
  function EraseParam(s: PhillipMain, key: string): (r: PhillipMain)
    ensures Param(r, key) == ""
    ensures forall k :: k != key ==> Param(r, k) == Param(s, k)
    ensures r.params.Keys == s.params.Keys - {key}
    ensures r == s.(params := r.params)
  {
    s.(params := s.params - {key})
  }

  /** Setting a parameter to the empty string reads the same as erasing it,
      although only erasing removes the key from `params()`. */
  lemma EmptyParamReadsAsErased(s: PhillipMain, key: string)
    ensures forall k :: Param(SetParam(s, key, ""), k) == Param(EraseParam(s, key), k)
    ensures key in SetParam(s, key, "").params && key !in EraseParam(s, key).params
  {
  }

  // ---------------------------------------------------------------------
  // Flags

  /** `flag(key)`. */
  function Flag(s: PhillipMain, key: string): bool
  {
    key in s.flags
  }

  /** `set_flag(key)`: the flag is raised; no other flag or state changes. */
  function SetFlag(s: PhillipMain, key: string): (r: PhillipMain)
    ensures Flag(r, key)
    ensures forall k :: k != key ==> Flag(r, k) == Flag(s, k)
    ensures r == s.(flags := r.flags)
  {
    s.(flags := s.flags + {key})
  }

  /** `erase_flag(key)`: the flag is lowered; no other flag or state changes. */
  function EraseFlag(s: PhillipMain, key: string): (r: PhillipMain)
    ensures !Flag(r, key)
    ensures forall k :: k != key ==> Flag(r, k) == Flag(s, k)
    ensures r == s.(flags := r.flags)
  {
    s.(flags := s.flags - {key})
  }

  /** Raising then lowering a flag restores a flag set that lacked it. */
  lemma SetThenEraseFlagRestores(s: PhillipMain, key: string)
    requires !Flag(s, key)
    ensures EraseFlag(SetFlag(s, key), key) == s
  {
  }

  /** The flag that asks for pseudo-positive inference. */
  const PseudoPositiveFlag: string := "get_pseudo_positive"

  /** `do_infer_pseudo_positive()`. */
  function DoInferPseudoPositive(s: PhillipMain): bool
  {
    Flag(s, PseudoPositiveFlag)
  }

  /** Pseudo-positive inference is switched on and off by its flag alone. */
  lemma PseudoPositiveFollowsItsFlag(s: PhillipMain, key: string)
    ensures DoInferPseudoPositive(SetFlag(s, PseudoPositiveFlag))
    ensures !DoInferPseudoPositive(EraseFlag(s, PseudoPositiveFlag))
    ensures key != PseudoPositiveFlag ==>
      DoInferPseudoPositive(SetFlag(s, key)) == DoInferPseudoPositive(s) &&
      DoInferPseudoPositive(EraseFlag(s, key)) == DoInferPseudoPositive(s)
  {
  }

  // ---------------------------------------------------------------------
  // Observation filters

  /** `add_target(name)`: the name becomes a target, and any other name
      stays a target only if it had been named before. */
  function AddTarget(s: PhillipMain, name: string): (r: PhillipMain)
    ensures IsTarget(r, name)
    ensures forall n :: n != name ==> (IsTarget(r, n) <==> n in s.targetObsNames)
    ensures r == s.(targetObsNames := r.targetObsNames)
  {
    s.(targetObsNames := s.targetObsNames + {name})
  }

  /** `clear_targets()`: every name becomes a target again. */
  function ClearTargets(s: PhillipMain): (r: PhillipMain)
    ensures forall n :: IsTarget(r, n)
    ensures r == s.(targetObsNames := {})
  {
    s.(targetObsNames := {})
  }

  /** `is_target(name)`: with no targets named every observation is a target. */
  function IsTarget(s: PhillipMain, name: string): bool
  {
    if s.targetObsNames == {} then true else name in s.targetObsNames
  }

  /** After `clear_targets` every name is a target. */
  lemma ClearedTargetsAcceptAll(s: PhillipMain, name: string)
    ensures IsTarget(ClearTargets(s), name)
  {
  }

  /** After `add_target(name)` the name is a target, and another name is a
      target exactly when it was named before. So naming the first target
      turns every other name from a target into a non-target. */
  lemma AddTargetNarrows(s: PhillipMain, name: string, other: string)
    requires other != name
    ensures IsTarget(AddTarget(s, name), name)
    ensures IsTarget(AddTarget(s, name), other) <==> other in s.targetObsNames
    ensures s.targetObsNames == {} ==> IsTarget(s, other) && !IsTarget(AddTarget(s, name), other)
  {
  }

  /** `add_exclusion(name)`: the name becomes excluded and no other name
      changes status. */
  function AddExclusion(s: PhillipMain, name: string): (r: PhillipMain)
    ensures IsExcluded(r, name)
    ensures forall n :: n != name ==> IsExcluded(r, n) == IsExcluded(s, n)
    ensures r == s.(excludedObsNames := r.excludedObsNames)
  {
    s.(excludedObsNames := s.excludedObsNames + {name})
  }

  /** `clear_exclusions()`: no name is excluded any more. */
  function ClearExclusions(s: PhillipMain): (r: PhillipMain)
    ensures forall n :: !IsExcluded(r, n)
    ensures r == s.(excludedObsNames := {})
  {
    s.(excludedObsNames := {})
  }

  /** `is_excluded(name)`: with no exclusions nothing is excluded. */
  function IsExcluded(s: PhillipMain, name: string): (r: bool)
    ensures r <==> name in s.excludedObsNames
  {
    if s.excludedObsNames == {} then false else name in s.excludedObsNames
  }

  /** Unlike `is_target`, the empty-set special case of `is_excluded` agrees
      with plain membership, so exclusion only ever grows with `add_exclusion`. */
  lemma ExcludedIsMembership(s: PhillipMain, name: string, added: string)
    ensures IsExcluded(s, name) <==> name in s.excludedObsNames
    ensures IsExcluded(s, name) ==> IsExcluded(AddExclusion(s, added), name)
    ensures IsExcluded(AddExclusion(s, added), added)
    ensures !IsExcluded(ClearExclusions(s), name)
  {
  }

  /** The filters are independent: changing one leaves the other's answers alone. */
  lemma FiltersIndependent(s: PhillipMain, name: string, n: string)
    ensures IsExcluded(AddTarget(s, n), name) == IsExcluded(s, name)
    ensures IsExcluded(ClearTargets(s), name) == IsExcluded(s, name)
    ensures IsTarget(AddExclusion(s, n), name) == IsTarget(s, name)
    ensures IsTarget(ClearExclusions(s), name) == IsTarget(s, name)
  {
  }

  // ---------------------------------------------------------------------
  // Components

  /** `set_lhs_enumerator(ptr)`: replaces the enumerator; a null pointer empties the slot. */
  function SetLhsEnumerator(s: PhillipMain, c: Option<Component>): (r: PhillipMain)
    ensures r.lhsEnumerator == c
    ensures r == s.(lhsEnumerator := c)
  {
    s.(lhsEnumerator := c)
  }

  /** `set_ilp_convertor(ptr)`. */
  function SetIlpConverter(s: PhillipMain, c: Option<Component>): (r: PhillipMain)
    ensures r.ilpConverter == c
    ensures r == s.(ilpConverter := c)
  {
    s.(ilpConverter := c)
  }

  /** `set_ilp_solver(ptr)`. */
  function SetIlpSolver(s: PhillipMain, c: Option<Component>): (r: PhillipMain)
    ensures r.ilpSolver == c
    ensures r == s.(ilpSolver := c)
  {
    s.(ilpSolver := c)
  }

  const LackOfEnumerator: string := "Cannot infer, because of lack of lhs_enumerator."
  const LackOfConverter: string := "Cannot infer, because of lack of ilp_convertor."
  const LackOfSolver: string := "Cannot infer, because of lack of ilp_solver."

  /** `check_validity()`: true when all three components are installed;
      otherwise it raises an error naming the first missing one, in the
      order enumerator, converter, solver. It never answers false. */
  function CheckValidity(s: PhillipMain): (r: Result<bool, string>)
    ensures r.Success? <==> s.lhsEnumerator.Some? && s.ilpConverter.Some? && s.ilpSolver.Some?
    ensures r.Success? ==> r.value
    ensures s.lhsEnumerator.None? ==> r == Failure(LackOfEnumerator)
    ensures s.lhsEnumerator.Some? && s.ilpConverter.None? ==> r == Failure(LackOfConverter)
    ensures s.lhsEnumerator.Some? && s.ilpConverter.Some? && s.ilpSolver.None? ==> r == Failure(LackOfSolver)
  {
    var canInfer := s.lhsEnumerator.Some? && s.ilpConverter.Some? && s.ilpSolver.Some?;
    if !canInfer then
      if s.lhsEnumerator.None? then Failure(LackOfEnumerator)
      else if s.ilpConverter.None? then Failure(LackOfConverter)
      else Failure(LackOfSolver)
    else Success(canInfer)
  }

  /** Installing the three components, in any state, makes the driver
      valid; the parameters, flags and filters play no part. */
  lemma InstallingAllComponentsValidates(s: PhillipMain, e: Component, c: Component, v: Component)
    ensures CheckValidity(SetIlpSolver(SetIlpConverter(SetLhsEnumerator(s, Some(e)), Some(c)), Some(v))) == Success(true)
  {
  }

  /** Validity depends on the components only: changing a parameter, a
      flag or a filter never changes the verdict. */
  lemma ValidityIgnoresConfiguration(s: PhillipMain, key: string, value: string)
    ensures CheckValidity(SetParam(s, key, value)) == CheckValidity(s)
    ensures CheckValidity(SetFlag(s, key)) == CheckValidity(s)
    ensures CheckValidity(AddTarget(s, key)) == CheckValidity(s)
    ensures CheckValidity(AddExclusion(s, key)) == CheckValidity(s)
  {
  }
}
