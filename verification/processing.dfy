/** The loop every repository runs over its sorted packages: each package is
    handed to `processPackage`, and the loop ends at the first kernel that
    already has BTF, since later (newer) kernels will have it too. Its
    outcome per package is an input here: the jobs it starts, the downloads
    and the workers are not modelled. */
module Processing {
  import opened Wrappers
  import opened Packages
  import VersionSort

  /** What `processPackage` reports for one package: success, `ErrHasBTF`,
      `context.Canceled`, or any other error. */
  datatype Outcome = Processed | HasBTF | Canceled | Failed(msg: string)

  /** How a loop treats errors. The Ubuntu, SUSE and Oracle loops end quietly
      on cancellation and log and skip other errors; the RHEL and Amazon loops
      return every error but `ErrHasBTF`, cancellation included. */
  datatype Policy = SkipErrors | AbortOnError

  /** The loop ends after a package with this outcome. */
  predicate Stops(policy: Policy, o: Outcome) {
    match policy
    case SkipErrors => o == HasBTF || o == Canceled
    case AbortOnError => o != Processed
  }

  /** The error the loop returns when it ends after outcome `o`. */
  function StopError(policy: Policy, o: Outcome): Option<Outcome> {
    if policy == AbortOnError && o != HasBTF then Some(o) else None
  }

  /** The position of the first outcome that ends the loop. */
  function FirstStop(policy: Policy, outcomes: seq<Outcome>): (r: Option<nat>)
    ensures r.Some? ==> r.value < |outcomes| && Stops(policy, outcomes[r.value])
    ensures r.Some? ==> forall j :: 0 <= j < r.value ==> !Stops(policy, outcomes[j])
    ensures r.None? ==> forall j :: 0 <= j < |outcomes| ==> !Stops(policy, outcomes[j])
  {
    if |outcomes| == 0 then None
    else if Stops(policy, outcomes[0]) then Some(0)
    else match FirstStop(policy, outcomes[1..])
      case Some(k) => Some(k + 1)
      case None => None
  }

  /** `processPackages` (and the loops of the RHEL, Amazon and Oracle
      repositories): `outcomes[i]` is what `processPackage` reports for
      `pkgs[i]`; `handled` are the packages handed to it, in order, and `err`
      is what the loop returns. Over packages sorted ascending by version,
      every package the loop leaves out is at least as new as the one it
      stopped at. */
  method ProcessPackages(policy: Policy, pkgs: seq<Package>, outcomes: seq<Outcome>)
    returns (handled: seq<Package>, err: Option<Outcome>)
    requires |outcomes| == |pkgs|
    ensures FirstStop(policy, outcomes).None? ==> handled == pkgs && err == None
    ensures FirstStop(policy, outcomes).Some? ==>
              && handled == pkgs[..FirstStop(policy, outcomes).value + 1]
              && err == StopError(policy, outcomes[|handled| - 1])
    ensures VersionSort.Sorted(pkgs) && |handled| < |pkgs| ==>
              forall q :: q in pkgs[|handled|..] ==> VersionSort.NotBefore(q, handled[|handled| - 1])
  {
    var i := 0;
    handled := [];
    while i < |pkgs|
      invariant 0 <= i <= |pkgs|
      invariant handled == pkgs[..i]
      invariant forall j :: 0 <= j < i ==> !Stops(policy, outcomes[j])
    {
      handled := handled + [pkgs[i]];
      match outcomes[i] {
        case Processed =>
        case HasBTF =>
          err := None;
          break;
        case Canceled =>
          err := if policy == SkipErrors then None else Some(Canceled);
          break;
        case Failed(msg) =>
          if policy == AbortOnError {
            err := Some(Failed(msg));
            break;
          }
      }
      i := i + 1;
    }
    if i == |pkgs| {
      err := None;
    }
  }

  /** When no package fails and nothing is canceled, the two policies stop at
      the same package and neither returns an error. */
  lemma {:induction false} PoliciesAgreeWithoutErrors(outcomes: seq<Outcome>)
    requires forall j :: 0 <= j < |outcomes| ==> outcomes[j] == Processed || outcomes[j] == HasBTF
    ensures FirstStop(SkipErrors, outcomes) == FirstStop(AbortOnError, outcomes)
    ensures FirstStop(SkipErrors, outcomes).Some? ==>
              StopError(AbortOnError, outcomes[FirstStop(SkipErrors, outcomes).value]) == None
  {
    if |outcomes| > 0 {
      PoliciesAgreeWithoutErrors(outcomes[1..]);
    }
  }
}
