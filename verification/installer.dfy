/**
 * `PmsHookApplication.hook` (lines 30-81): decode the signature bundle,
 * then locate `ActivityThread.sPackageManager`, build a proxy around its
 * value, write the proxy into that field and into `mPM` of the context's
 * `ApplicationPackageManager`, all inside one `catch (Exception)`.
 *
 * The reflective lookups are `Step`s; a `Host` names the steps that throw
 * on this runtime. `Hook` stops at the first of them, as an exception
 * leaving the `try` would, and reports instead of throwing.
 */
module Installer {
  import opened Wrappers
  import SignatureBundle
  import opened InvocationHandler

  /** The reflective steps of `hook`, in the order it takes them. */
  datatype Step =
    | FindActivityThread   // lines 45-48: Class.forName, getDeclaredMethod, invoke
    | ReadPackageManager   // lines 51-53: getDeclaredField("sPackageManager"), isAccessible, get
    | CreateProxy          // lines 56-65: Class.forName("...IPackageManager"), Proxy.newProxyInstance
    | WritePackageManager  // line 68: sPackageManagerField.set
    | FindPmField          // lines 71-73: getDeclaredField("mPM"), isAccessible
    | WritePm              // line 74: mPmField.set

  /** Position of a step in `hook`. */
  function Index(st: Step): nat {
    match st
    case FindActivityThread => 0
    case ReadPackageManager => 1
    case CreateProxy => 2
    case WritePackageManager => 3
    case FindPmField => 4
    case WritePm => 5
  }

  /** Why `hook` printed "PmsHook failed." (line 78). */
  datatype Cause =
    | Base64Failed
    | BundleFailed(error: SignatureBundle.DecodeError)
    | StepFailed(step: Step)

  /** What `hook` prints: "PmsHook success." (line 76) or the failure (lines 78-79). */
  datatype Report = Hooked | HookFailed(cause: Cause)

  /** The report and the two slots after `hook`. */
  datatype HookState = HookState(report: Report, sPackageManager: PackageManager, mPM: PackageManager)

  /** Every step up to and including `st` goes through. */
  predicate Passes(broken: set<Step>, st: Step) {
    forall b :: b in broken ==> Index(st) < Index(b)
  }

  /** The earliest of the broken steps, the one whose exception ends `hook`. */
  ghost function Earliest(broken: set<Step>): (st: Step)
    requires broken != {}
    ensures st in broken && forall b :: b in broken ==> Index(st) <= Index(b)
  {
    EarliestExists(broken);
    var st :| st in broken && forall b :: b in broken ==> Index(st) <= Index(b);
    st
  }

  /** Line 32 and lines 33-42: the bytes Base64 gave, decoded. */
  function Decoded(bytes: Option<seq<SignatureBundle.byte>>): Result<seq<Blob>, Cause> {
    match bytes
    case None => Failure(Base64Failed)
    case Some(raw) =>
      match SignatureBundle.Decode(raw)
      case Failure(e) => Failure(BundleFailed(e))
      case Success(blobs) => Success(blobs)
  }

  /**
   * What `hook` leaves behind, from the Base64 outcome, the context's
   * package name, the broken steps and the two slots before it ran.
   */
  ghost function HookSpec(bytes: Option<seq<SignatureBundle.byte>>, packageName: string, broken: set<Step>,
                          sPM: PackageManager, mPM: PackageManager): HookState
  {
    match Decoded(bytes)
    case Failure(cause) => HookState(HookFailed(cause), sPM, mPM)
    case Success(blobs) =>
      var proxy := Proxy(Handler(sPM, blobs, packageName));
      HookState(
        if broken == {} then Hooked else HookFailed(StepFailed(Earliest(broken))),
        if Passes(broken, WritePackageManager) then proxy else sPM,
        if Passes(broken, WritePm) then proxy else mPM)
  }

  /**
   * The process `hook` patches: the static `ActivityThread.sPackageManager`,
   * the `mPM` field of `context.packageManager`, `context.packageName`, and
   * which reflective steps throw here.
   */
  class Host {
    var sPackageManager: PackageManager
    var mPM: PackageManager
    const packageName: string
    const broken: set<Step>

    constructor (sPackageManager: PackageManager, mPM: PackageManager, packageName: string, broken: set<Step>)
      ensures this.sPackageManager == sPackageManager && this.mPM == mPM
      ensures this.packageName == packageName && this.broken == broken
    {
      this.sPackageManager := sPackageManager;
      this.mPM := mPM;
      this.packageName := packageName;
      this.broken := broken;
    }
  }

  /** The class of lines 22-82, holding the Base64 text of the signature bundle. */
  class PmsHookApplication {
    const signature: string

    constructor (signature: string)
      ensures this.signature == signature
    {
      this.signature := signature;
    }

    /**
     * `hook(context)`. `base64` stands for `Base64.decode(_, DEFAULT)`, with
     * `None` for the exception it throws on malformed text.
     */
    method Hook(context: Host, base64: string -> Option<seq<SignatureBundle.byte>>) returns (report: Report)
      modifies context
      ensures HookState(report, context.sPackageManager, context.mPM)
           == HookSpec(base64(signature), context.packageName, context.broken,
                       old(context.sPackageManager), old(context.mPM))
    {
      var byteArray := base64(signature);
      if byteArray.None? {
        return HookFailed(Base64Failed);
      }
      var signatures := SignatureBundle.DecodeBundle(byteArray.value);
      if signatures.Failure? {
        return HookFailed(BundleFailed(signatures.error));
      }
      var broken := context.broken;
      if FindActivityThread in broken {
        EarliestIs(broken, FindActivityThread);
        return HookFailed(StepFailed(FindActivityThread));
      }
      if ReadPackageManager in broken {
        EarliestIs(broken, ReadPackageManager);
        return HookFailed(StepFailed(ReadPackageManager));
      }
      var sPackageManager := context.sPackageManager;
      if CreateProxy in broken {
        EarliestIs(broken, CreateProxy);
        return HookFailed(StepFailed(CreateProxy));
      }
      var proxy := Proxy(Handler(sPackageManager, signatures.value, context.packageName));
      if WritePackageManager in broken {
        EarliestIs(broken, WritePackageManager);
        return HookFailed(StepFailed(WritePackageManager));
      }
      context.sPackageManager := proxy;
      if FindPmField in broken {
        EarliestIs(broken, FindPmField);
        return HookFailed(StepFailed(FindPmField));
      }
      if WritePm in broken {
        EarliestIs(broken, WritePm);
        return HookFailed(StepFailed(WritePm));
      }
      context.mPM := proxy;
      report := Hooked;
    }
  }

  // ---------------------------------------------------------------------
  // Properties

  lemma EarliestExists(broken: set<Step>)
    requires broken != {}
    ensures exists st :: st in broken && forall b :: b in broken ==> Index(st) <= Index(b)
  {
    var st := if FindActivityThread in broken then FindActivityThread
      else if ReadPackageManager in broken then ReadPackageManager
      else if CreateProxy in broken then CreateProxy
      else if WritePackageManager in broken then WritePackageManager
      else if FindPmField in broken then FindPmField
      else WritePm;
    var b0 :| b0 in broken;
    assert b0.FindActivityThread? || b0.ReadPackageManager? || b0.CreateProxy? ||
      b0.WritePackageManager? || b0.FindPmField? || b0.WritePm?;
    assert st in broken;
  }

  /** A broken step with no broken step before it is the earliest. */
  lemma EarliestIs(broken: set<Step>, st: Step)
    requires st in broken && forall b :: b in broken && b != st ==> Index(st) < Index(b)
    ensures Earliest(broken) == st
  {
  }

  /** `hook` reports success exactly when Base64, the bundle and every reflective step go through. */
  lemma HookedIff(bytes: Option<seq<SignatureBundle.byte>>, packageName: string, broken: set<Step>,
                  sPM: PackageManager, mPM: PackageManager)
    ensures HookSpec(bytes, packageName, broken, sPM, mPM).report == Hooked
        <==> bytes.Some? && SignatureBundle.Decode(bytes.value).Success? && broken == {}
  {
  }

  /** A Base64 or bundle failure is reported and neither slot is touched. */
  lemma DecodeFailureChangesNothing(bytes: Option<seq<SignatureBundle.byte>>, packageName: string, broken: set<Step>,
                                    sPM: PackageManager, mPM: PackageManager)
    requires bytes.None? || SignatureBundle.Decode(bytes.value).Failure?
    ensures var st := HookSpec(bytes, packageName, broken, sPM, mPM);
      st.sPackageManager == sPM && st.mPM == mPM && st.report.HookFailed?
    ensures bytes.None? ==> HookSpec(bytes, packageName, broken, sPM, mPM).report == HookFailed(Base64Failed)
    ensures bytes.Some? ==>
      HookSpec(bytes, packageName, broken, sPM, mPM).report == HookFailed(BundleFailed(SignatureBundle.Decode(bytes.value).error))
  {
  }

  /**
   * After a successful hook both slots hold one and the same proxy, and it
   * wraps the original `sPackageManager`, not the original `mPM`.
   */
  lemma HookedSlots(bytes: Option<seq<SignatureBundle.byte>>, packageName: string, broken: set<Step>,
                    sPM: PackageManager, mPM: PackageManager)
    requires HookSpec(bytes, packageName, broken, sPM, mPM).report == Hooked
    ensures bytes.Some? && SignatureBundle.Decode(bytes.value).Success?
    ensures var st := HookSpec(bytes, packageName, broken, sPM, mPM);
      var proxy := Proxy(Handler(sPM, SignatureBundle.Decode(bytes.value).value, packageName));
      st.sPackageManager == proxy && st.mPM == proxy
  {
    HookedIff(bytes, packageName, broken, sPM, mPM);
  }

  /**
   * A failed hook names the earliest broken step; each slot is either left
   * as it was or holds the proxy, and `mPM` is only written once
   * `sPackageManager` has been.
   */
  lemma FailedHookSlots(bytes: Option<seq<SignatureBundle.byte>>, packageName: string, broken: set<Step>,
                        sPM: PackageManager, mPM: PackageManager, blobs: seq<Blob>)
    requires Decoded(bytes) == Success(blobs) && broken != {}
    ensures var st := HookSpec(bytes, packageName, broken, sPM, mPM);
      var proxy := Proxy(Handler(sPM, blobs, packageName));
      st.report.HookFailed? && st.report.cause.StepFailed? &&
      st.report.cause.step in broken &&
      (forall b :: b in broken ==> Index(st.report.cause.step) <= Index(b)) &&
      (st.sPackageManager == proxy <==> Index(st.report.cause.step) > Index(WritePackageManager)) &&
      (st.sPackageManager != proxy ==> st.sPackageManager == sPM) &&
      st.mPM == mPM
  {
    var st := Earliest(broken);
    var proxy := Proxy(Handler(sPM, blobs, packageName));
    assert !Passes(broken, WritePm);
  }

  /**
   * No rollback: when the `mPM` field cannot be found or set, the proxy
   * already written into `sPackageManager` stays there.
   */
  lemma NoRollback(bytes: Option<seq<SignatureBundle.byte>>, packageName: string, broken: set<Step>,
                   sPM: PackageManager, mPM: PackageManager, blobs: seq<Blob>)
    requires Decoded(bytes) == Success(blobs)
    requires broken != {} && broken <= {FindPmField, WritePm}
    ensures var st := HookSpec(bytes, packageName, broken, sPM, mPM);
      st.report.HookFailed? &&
      st.sPackageManager == Proxy(Handler(sPM, blobs, packageName)) && st.mPM == mPM
  {
    assert Passes(broken, WritePackageManager);
  }

  /**
   * After a successful hook, calls made through either slot behave the
   * same: the app's own `getPackageInfo` with `GET_SIGNATURES` gets the
   * original manager's answer with the decoded signatures, every other call
   * that gets past the argument reads gets the original manager's answer.
   */
  lemma HookedCalls(bytes: Option<seq<SignatureBundle.byte>>, packageName: string, broken: set<Step>,
                    sPM: PackageManager, mPM: PackageManager,
                    service: Service, name: string, args: seq<Arg>)
    requires HookSpec(bytes, packageName, broken, sPM, mPM).report == Hooked
    requires name != "getPackageInfo" || Request(ProxyArgs(args)).Success?
    ensures bytes.Some? && SignatureBundle.Decode(bytes.value).Success?
    ensures var st := HookSpec(bytes, packageName, broken, sPM, mPM);
      var h := Handler(sPM, SignatureBundle.Decode(bytes.value).value, packageName);
      Call(st.sPackageManager, service, name, args) == Call(st.mPM, service, name, args) &&
      Call(st.sPackageManager, service, name, args)
        == if Intercepted(h, name, ProxyArgs(args))
           then Forged(h.signatures, Call(sPM, service, name, args))
           else Call(sPM, service, name, args)
  {
    HookedSlots(bytes, packageName, broken, sPM, mPM);
    var h := Handler(sPM, SignatureBundle.Decode(bytes.value).value, packageName);
    if Intercepted(h, name, ProxyArgs(args)) {
      InvokeIntercepted(h, service, name, ProxyArgs(args));
    } else {
      InvokePassesThrough(h, service, name, ProxyArgs(args));
    }
  }
}
