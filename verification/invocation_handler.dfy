/**
 * `PmsHookInvocationHandler` (lines 88-113): the `InvocationHandler` behind
 * the proxy `IPackageManager`. A call reaches `Invoke` with the method name
 * and the argument array; `getPackageInfo` for the app's own package with
 * `GET_SIGNATURES` set is forwarded and its `signatures` replaced, every
 * other call is forwarded as it is.
 *
 * The real package-manager service is a `Service`: a function from a method
 * name and its arguments to what the call returns or throws.
 */
module InvocationHandler {
  import opened Wrappers
  import opened JvmInt
  import SignatureBundle

  type Blob = SignatureBundle.Blob

  /** `GET_SIGNATURES` (line 112). */
  const GetSignatures: int := 0x40

  /** `android.content.pm.Signature`: a wrapper around the certificate bytes. */
  datatype Signature = Signature(bytes: Blob)

  /** `PackageInfo`: the `signatures` field the handler rewrites, and fields it leaves alone. */
  datatype PackageInfo = PackageInfo(
    packageName: string,
    versionName: string,
    versionCode: int,
    signatures: seq<Signature>)

  /** An element of the `args` array: a string, a boxed `Integer`/`Long`, or `null`. */
  datatype Arg = Text(s: string) | Number(n: int) | NullArg

  /** The exceptions a call can end with. */
  datatype Exception =
    | ServiceError(code: int)  // whatever the service itself throws
    | NullPointer
    | IndexOutOfBounds
    | NumberFormat
    | ClassCast

  /** What a service method returns: a `PackageInfo`, some other object, or `null`. */
  datatype Value = Info(info: PackageInfo) | Other(tag: int) | Null

  datatype Outcome = Returned(value: Value) | Threw(exception: Exception)

  /** The real `IPackageManager` behind the binder. */
  type Service = (string, seq<Arg>) -> Outcome

  /**
   * The object a package-manager slot holds: `null`, the real binder proxy,
   * or a `java.lang.reflect.Proxy` dispatching to a handler.
   */
  datatype PackageManager = NoManager | Binder | Proxy(handler: Handler)

  /** The handler's three constructor values (lines 89-91). */
  datatype Handler = Handler(packageManager: PackageManager, signatures: seq<Blob>, appPackageName: string)

  /** `args.orEmpty()` (line 108). */
  function OrEmpty(args: Option<seq<Arg>>): seq<Arg> {
    if args.None? then [] else args.value
  }

  /** `java.lang.reflect.Proxy` passes `null` rather than an empty array to a handler. */
  function ProxyArgs(args: seq<Arg>): (r: Option<seq<Arg>>)
    ensures OrEmpty(r) == args
  {
    if args == [] then None else Some(args)
  }

  /** `toString()` on an argument: `null` throws, a boxed number prints in decimal. */
  function ArgText(a: Arg): (r: Result<string, Exception>)
    ensures r.Failure? <==> a.NullArg?
    ensures r.Failure? ==> r.error == NullPointer
    ensures a.Number? ==> ParseInt(r.value) == (if IsInt(a.n) then Some(a.n) else None)
  {
    match a
    case Text(s) => Success(s)
    case Number(n) => ParseDecimalText(n); Success(DecimalText(n))
    case NullArg => Failure(NullPointer)
  }

  /**
   * Lines 100-101, in evaluation order: `args!!`, `args[0]`,
   * `.toString()`, `args[1]`, `.toString()`, `.toInt()`.
   */
  function Request(args: Option<seq<Arg>>): (r: Result<(string, int), Exception>)
    ensures args.None? ==> r == Failure(NullPointer)
    ensures r.Success? ==> args.Some? && |args.value| >= 2
    ensures r.Success? ==> ArgText(args.value[0]) == Success(r.value.0)
    ensures r.Success? ==> IsInt(r.value.1) && exists text :: ArgText(args.value[1]) == Success(text) && ParseInt(text) == Some(r.value.1)
  {
    if args.None? then Failure(NullPointer)
    else if |args.value| == 0 then Failure(IndexOutOfBounds)
    else
      match ArgText(args.value[0])
      case Failure(e) => Failure(e)
      case Success(packageName) =>
        if |args.value| < 2 then Failure(IndexOutOfBounds)
        else
          match ArgText(args.value[1])
          case Failure(e) => Failure(e)
          case Success(text) =>
            match ParseInt(text)
            case None => Failure(NumberFormat)
            case Some(flag) => Success((packageName, flag))
  }

  /**
   * `flag and GET_SIGNATURES != 0` (line 102). `GET_SIGNATURES` is the single
   * bit 6, and Dafny's division rounds towards negative infinity for a
   * positive divisor, so this is that bit of the two's-complement `flag`.
   */
  function HasGetSignatures(flag: int): bool {
    (flag / GetSignatures) % 2 == 1
  }

  /** The match test of line 102, once the name (line 99) is `getPackageInfo`. */
  predicate Matches(h: Handler, packageName: string, flag: int) {
    HasGetSignatures(flag) && h.appPackageName == packageName
  }

  /** The calls the handler rewrites. */
  predicate Intercepted(h: Handler, name: string, args: Option<seq<Arg>>) {
    name == "getPackageInfo" && Request(args).Success? && Matches(h, Request(args).value.0, Request(args).value.1)
  }

  /** `Array(signatures.size) { Signature(signatures[it]) }` (line 104). */
  function SignaturesOf(blobs: seq<Blob>): seq<Signature> {
    seq(|blobs|, i requires 0 <= i < |blobs| => Signature(blobs[i]))
  }

  /** The certificate bytes of each signature, in order. */
  function SignatureBytes(sigs: seq<Signature>): seq<Blob> {
    seq(|sigs|, i requires 0 <= i < |sigs| => sigs[i].bytes)
  }

  /**
   * Lines 103-105 after the service returned: `as PackageInfo`, then the
   * `signatures` write. Kotlin's cast of `null` to a non-null type throws a
   * `NullPointerException`; any other non-`PackageInfo` a `ClassCastException`.
   */
  function Forged(blobs: seq<Blob>, out: Outcome): Outcome {
    match out
    case Threw(e) => Threw(e)
    case Returned(Info(p)) => Returned(Info(p.(signatures := SignaturesOf(blobs))))
    case Returned(Null) => Threw(NullPointer)
    case Returned(Other(_)) => Threw(ClassCast)
  }

  /**
   * `method.invoke(pm, *args)`: an instance method invoked on `null` throws,
   * the binder runs the service, a proxy hands the call to its handler.
   */
  function Call(pm: PackageManager, service: Service, name: string, args: seq<Arg>): Outcome
    decreases pm
  {
    match pm
    case NoManager => Threw(NullPointer)
    case Binder => service(name, args)
    case Proxy(h) => Invoke(h, service, name, ProxyArgs(args))
  }

  /** `PmsHookInvocationHandler.invoke` (lines 98-109). */
  function Invoke(h: Handler, service: Service, name: string, args: Option<seq<Arg>>): Outcome
    decreases h
  {
    if name == "getPackageInfo" then
      match Request(args)
      case Failure(e) => Threw(e)
      case Success((packageName, flag)) =>
        if Matches(h, packageName, flag) then
          Forged(h.signatures, Call(h.packageManager, service, name, args.value))
        else
          Call(h.packageManager, service, name, OrEmpty(args))
    else
      Call(h.packageManager, service, name, OrEmpty(args))
  }

  // ---------------------------------------------------------------------
  // Properties

  /**
   * The other direction of `ProxyArgs`: forwarding `args.orEmpty()` through
   * a proxy hands the next handler the same `args`, except that an explicit
   * empty array arrives as `null`.
   */
  lemma OrEmptyProxyArgs(args: Option<seq<Arg>>)
    ensures ProxyArgs(OrEmpty(args)) == if args == Some([]) then None else args
  {
  }

  /** Bit 6 of `flag` is bit 6 of its low byte. */
  lemma HasGetSignaturesOfLowByte(flag: int)
    ensures HasGetSignatures(flag) <==> HasGetSignatures(flag % 0x100)
  {
    var q, low := flag / 0x100, flag % 0x100;
    var k := low / GetSignatures;
    assert flag == GetSignatures * (4 * q + k) + low % GetSignatures;
    assert flag / GetSignatures == 4 * q + k;
    assert 4 * q + k == 2 * (2 * q + k / 2) + k % 2;
  }

  /** On a single byte, the division test agrees with the machine `and`. */
  lemma ByteMaskIsDivision(low: int)
    requires 0 <= low < 0x100
    ensures ((low as bv8) & 0x40 != 0) <==> HasGetSignatures(low)
  {
  }

  /**
   * The test of line 102 against the machine operation itself: `flag % 0x100`
   * is the low byte of the two's-complement `Int`, and `GET_SIGNATURES` lies
   * inside that byte, so `flag and GET_SIGNATURES != 0` is this `bv8` `and`.
   */
  lemma HasGetSignaturesIsAndMask(flag: int)
    ensures HasGetSignatures(flag) <==> ((flag % 0x100) as bv8) & 0x40 != 0
  {
    HasGetSignaturesOfLowByte(flag);
    ByteMaskIsDivision(flag % 0x100);
  }

  /** The signatures written are one per blob, in order, carrying exactly its bytes. */
  lemma SignaturesRoundTrip(blobs: seq<Blob>)
    ensures |SignaturesOf(blobs)| == |blobs|
    ensures SignatureBytes(SignaturesOf(blobs)) == blobs
  {
  }

  /**
   * A `PackageInfo` from the service comes back with its signatures replaced
   * by the decoded blobs, in order, and every other field as it was.
   */
  lemma ForgedPackageInfo(blobs: seq<Blob>, p: PackageInfo)
    ensures Forged(blobs, Returned(Info(p))).Returned?
    ensures Forged(blobs, Returned(Info(p))).value.Info?
    ensures var q := Forged(blobs, Returned(Info(p))).value.info;
      q == p.(signatures := q.signatures) && SignatureBytes(q.signatures) == blobs
  {
    SignaturesRoundTrip(blobs);
  }

  /**
   * Whatever the service throws propagates; a `null` or a non-`PackageInfo`
   * result fails the cast.
   */
  lemma ForgedFailures(blobs: seq<Blob>, out: Outcome)
    requires !(out.Returned? && out.value.Info?)
    ensures Forged(blobs, out).Threw?
    ensures out.Threw? ==> Forged(blobs, out) == out
    ensures out == Returned(Null) ==> Forged(blobs, out) == Threw(NullPointer)
    ensures out.Returned? && out.value.Other? ==> Forged(blobs, out) == Threw(ClassCast)
  {
  }

  /** Rewriting an already rewritten result changes nothing. */
  lemma ForgedIdempotent(blobs: seq<Blob>, out: Outcome)
    ensures Forged(blobs, Forged(blobs, out)) == Forged(blobs, out)
  {
  }

  /**
   * A matching call still goes to the wrapped package manager, with the
   * original arguments, and only its result is rewritten.
   */
  lemma InvokeIntercepted(h: Handler, service: Service, name: string, args: Option<seq<Arg>>)
    requires Intercepted(h, name, args)
    ensures args.Some?
    ensures Invoke(h, service, name, args) == Forged(h.signatures, Call(h.packageManager, service, name, args.value))
  {
  }

  /**
   * Every call that is not intercepted and gets past the argument reads of
   * lines 100-101 returns or throws exactly what the wrapped package manager
   * does, with `null` arguments forwarded as an empty array.
   */
  lemma InvokePassesThrough(h: Handler, service: Service, name: string, args: Option<seq<Arg>>)
    requires name != "getPackageInfo" || Request(args).Success?
    requires !Intercepted(h, name, args)
    ensures Invoke(h, service, name, args) == Call(h.packageManager, service, name, OrEmpty(args))
  {
  }

  /**
   * A `getPackageInfo` call whose arguments cannot be read throws from the
   * handler itself; the service is never consulted.
   */
  lemma InvokeBadArguments(h: Handler, service: Service, args: Option<seq<Arg>>)
    requires Request(args).Failure?
    ensures Invoke(h, service, "getPackageInfo", args) == Threw(Request(args).error)
  {
  }

  /**
   * How `getPackageInfo(packageName, flags, ...)` is read: the flags must fit
   * an `Int`, because line 101 parses their decimal text with `toInt()`; a
   * `Long` flags value outside that range throws `NumberFormatException`.
   */
  lemma RequestOfPackageInfoCall(packageName: string, flags: int, rest: seq<Arg>)
    ensures IsInt(flags) ==> Request(Some([Text(packageName), Number(flags)] + rest)) == Success((packageName, flags))
    ensures !IsInt(flags) ==> Request(Some([Text(packageName), Number(flags)] + rest)) == Failure(NumberFormat)
  {
    ParseDecimalText(flags);
  }

  /**
   * Interception is observable exactly on the matching calls: when the
   * wrapped manager returns a `PackageInfo` whose signatures differ from the
   * decoded ones, the proxy's answer differs from it if and only if the call
   * is intercepted, and then only in `signatures`.
   */
  lemma InterceptedIff(h: Handler, service: Service, name: string, args: Option<seq<Arg>>, p: PackageInfo)
    requires name != "getPackageInfo" || Request(args).Success?
    requires Call(h.packageManager, service, name, OrEmpty(args)) == Returned(Info(p))
    requires SignatureBytes(p.signatures) != h.signatures
    ensures Invoke(h, service, name, args) != Returned(Info(p)) <==> Intercepted(h, name, args)
    ensures Intercepted(h, name, args) ==>
      Invoke(h, service, name, args) == Returned(Info(p.(signatures := SignaturesOf(h.signatures))))
  {
    if Intercepted(h, name, args) {
      assert OrEmpty(args) == args.value;
      SignaturesRoundTrip(h.signatures);
    }
  }

  /** A proxy over a `null` package manager (lines 53, 61) makes every call throw. */
  lemma ProxyOverNull(signatures: seq<Blob>, appPackageName: string, service: Service, name: string, args: seq<Arg>)
    ensures Call(Proxy(Handler(NoManager, signatures, appPackageName)), service, name, args).Threw?
  {
    var h := Handler(NoManager, signatures, appPackageName);
    var a := ProxyArgs(args);
    assert Call(NoManager, service, name, OrEmpty(a)) == Threw(NullPointer);
    if Intercepted(h, name, a) {
      assert Call(NoManager, service, name, a.value) == Threw(NullPointer);
      ForgedFailures(signatures, Threw(NullPointer));
    }
  }

  /**
   * Hooking twice wraps the first proxy in a second one with the same
   * signatures and package name; callers see no difference.
   */
  lemma RehookUnobservable(h: Handler, service: Service, name: string, args: seq<Arg>)
    ensures Call(Proxy(Handler(Proxy(h), h.signatures, h.appPackageName)), service, name, args)
         == Call(Proxy(h), service, name, args)
  {
    var outer := Handler(Proxy(h), h.signatures, h.appPackageName);
    var a := ProxyArgs(args);
    if Intercepted(outer, name, a) {
      assert a.value == args;
      ForgedIdempotent(h.signatures, Call(h.packageManager, service, name, args));
    }
  }
}
