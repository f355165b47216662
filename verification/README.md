# PmsHookApplication in Dafny

A model of the package-manager hook in
`app/src/main/java/dev/jkcarino/revanced/integrations/shared/PmsHookApplication.kt`.
The hook decodes a bundle of signing certificates and installs a proxy
`IPackageManager`. The proxy answers the app's own
`getPackageInfo(..., GET_SIGNATURES)` with those certificates in place of the
real ones. It has three parts:

- **Signature bundle** (`signature_bundle.dfy`, lines 32-42).
  - The framing is one count byte (`read() and 0xFF`), then `count` times a
    4-byte big-endian `Int` length followed by that many bytes.
  - `DataInput` is the `DataInputStream` cursor, with `Read`, `ReadInt` and
    `ReadFully`. Its position is kept as the bytes not read yet.
  - `ReadSignature` reads one entry. `ReadSignatures` is the loop of the
    `Array(signatureCount)` initializer, proved equal to the function
    `ReadEntries`. `DecodeBundle` reads the count byte and runs that loop; it
    is proved equal to the function `Decode`.
  - A proof-only encoder (`Encode`, ghost) gives the round trip. An
    if-and-only-if lemma characterises every successful decode. Lemmas cover
    each failure: truncation, missing entries, a negative length, and the
    empty input, which reads as count 255.
- **Invocation handler** (`invocation_handler.dfy`, lines 88-113).
  - `Invoke` is `PmsHookInvocationHandler.invoke`. `Call` is
    `method.invoke(pm, *args)` on a package-manager slot, whose value is
    `null`, the binder, or a proxy.
  - The real service is an abstract `Service`: a function from method name
    and arguments to a returned value or a thrown exception.
  - The argument reads of lines 100-101 keep their evaluation order, and so
    do the exceptions they can throw.
  - `JvmInt` (`jvm_int.dfy`) models `Integer`/`Long.toString()` and Kotlin's
    `String.toInt()`.
- **Installer** (`installer.dfy`, lines 30-81).
  - `Host` holds the two slots, `ActivityThread.sPackageManager` and
    `ApplicationPackageManager.mPM`.
  - `PmsHookApplication.Hook` runs the reflective steps in source order. It
    stops at the first step the host marks as broken, as the `try` does.
  - `Hook` is proved against the declarative `HookSpec`. The lemmas prove
    the following about `HookSpec`:
    - success exactly when everything goes through;
    - nothing changes on a decode failure;
    - both slots hold the same proxy around the original `sPackageManager`;
    - there is no rollback after the first write.

`wrappers.dfy` holds `Option` and `Result`.

## Where the code goes its own way

The model follows the code in each of these points:

- **Slot writes:** the two slots are written one after the other (lines 68 and
  74), not atomically. If the `mPM` field cannot be found or set,
  `sPackageManager` keeps the proxy (`NoRollback`, `FailedHookSlots`).
- **What the proxy wraps:** the proxy wraps the value read from
  `sPackageManager`. The previous `mPM` value is dropped (`HookedSlots`).
- **Argument reads:** for every `getPackageInfo` call, the handler reads its
  arguments before deciding anything. These calls throw from the handler
  instead of being forwarded (`InvokeBadArguments`):
  - a `null` argument array;
  - fewer than two arguments;
  - a `null` package name or flags argument;
  - flags whose decimal text is not an `Int`.

  A `Long` flags value outside `Int` range is one such case
  (`RequestOfPackageInfoCall`).
- **Empty bundle:** an empty decoded bundle is not an empty list. `read()`
  returns -1, which masks to 255 entries, and the first `readInt` hits end of
  stream (`Decode`).
- **Count limit:** the count byte caps a bundle at 255 entries.
- **Negative length:** a length with its top bit set is negative, and
  `ByteArray` throws `NegativeArraySizeException` (`DecodeNegativeLength`).
- **Trailing bytes:** bytes after the last entry are never read
  (`DecodeIgnoresTrailing`).
- **Matched call with no `PackageInfo`:** a matched call whose service
  returns `null` or some other object fails the cast on line 103. It throws
  instead of returning forged signatures (`ForgedFailures`).

## Model

| member | source | states |
|---|---|---|
| JvmInt.NatText | app/src/main/java/dev/jkcarino/revanced/integrations/shared/PmsHookApplication.kt:100-101 | the decimal digits `toString()` prints for a non-negative number are non-empty, all digits, and have no leading zero |
| JvmInt.DecimalText | app/src/main/java/dev/jkcarino/revanced/integrations/shared/PmsHookApplication.kt:100-101 | `toString()` of a boxed number is non-empty and starts with `-` exactly for negative values; what follows the sign is all digits |
| JvmInt.ParseInt | app/src/main/java/dev/jkcarino/revanced/integrations/shared/PmsHookApplication.kt:101 | `toInt()` only ever yields `Int`-range values and rejects the empty string |
| JvmInt.DigitsValueOfNatText | app/src/main/java/dev/jkcarino/revanced/integrations/shared/PmsHookApplication.kt:101 | the digits printed for `n` are read back as `n` |
| JvmInt.ParseDecimalText | app/src/main/java/dev/jkcarino/revanced/integrations/shared/PmsHookApplication.kt:101 | `n.toString().toInt()` is `n` when `n` fits an `Int` and throws otherwise |
| SignatureBundle.Int32BE | app/src/main/java/dev/jkcarino/revanced/integrations/shared/PmsHookApplication.kt:37 | `readInt` yields an `Int`, negative exactly when the first byte has its top bit set |
| SignatureBundle.FirstRead | app/src/main/java/dev/jkcarino/revanced/integrations/shared/PmsHookApplication.kt:35 | the count of line 35: `read() and 0xFF` is 255 on an empty stream and the first byte otherwise |
| SignatureBundle.LowByte | app/src/main/java/dev/jkcarino/revanced/integrations/shared/PmsHookApplication.kt:35 | `and 0xFF` gives a count in 0..255, keeps a byte value, and turns end of stream (-1) into 255 |
| SignatureBundle.AfterCount | app/src/main/java/dev/jkcarino/revanced/integrations/shared/PmsHookApplication.kt:35 | the count `read()` consumes exactly the byte it returned, and nothing when it returned -1 |
| SignatureBundle.ReadEntry | app/src/main/java/dev/jkcarino/revanced/integrations/shared/PmsHookApplication.kt:37-39 | a successfully read entry consumes exactly its 4 length bytes and its payload |
| SignatureBundle.ReadEntries | app/src/main/java/dev/jkcarino/revanced/integrations/shared/PmsHookApplication.kt:36-40 | the array initializer yields exactly `n` blobs when it succeeds |
| SignatureBundle.RestAfter | app/src/main/java/dev/jkcarino/revanced/integrations/shared/PmsHookApplication.kt:36-40 | the bytes left once `n` entries are read; its meaning is fixed by `ReadEntriesRest` |
| SignatureBundle.ReadEntriesRest | app/src/main/java/dev/jkcarino/revanced/integrations/shared/PmsHookApplication.kt:36-40 | after `n` entries are read, the input is exactly the framing of the blobs read followed by the unread rest |
| SignatureBundle.Decode | app/src/main/java/dev/jkcarino/revanced/integrations/shared/PmsHookApplication.kt:33-41 | empty input fails at end of stream; a successful decode has exactly as many blobs as the count byte says |
| SignatureBundle.DataInput.constructor | app/src/main/java/dev/jkcarino/revanced/integrations/shared/PmsHookApplication.kt:33-34 | the stream starts at the first byte of the decoded array |
| SignatureBundle.DataInput.Read | app/src/main/java/dev/jkcarino/revanced/integrations/shared/PmsHookApplication.kt:35 | `read()` returns the next byte and advances, or -1 without moving at end of stream |
| SignatureBundle.DataInput.ReadInt | app/src/main/java/dev/jkcarino/revanced/integrations/shared/PmsHookApplication.kt:37 | `readInt()` consumes four bytes and returns their big-endian value, or throws EOF with fewer than four left |
| SignatureBundle.DataInput.ReadFully | app/src/main/java/dev/jkcarino/revanced/integrations/shared/PmsHookApplication.kt:38 | `readFully` fills the array with the next `n` bytes, or throws EOF when fewer remain |
| SignatureBundle.ReadSignature | app/src/main/java/dev/jkcarino/revanced/integrations/shared/PmsHookApplication.kt:37-39 | `ByteArray(readInt()).also { readFully(it) }` reads exactly one entry off the stream, and fails with that entry's exception: EOF, or a negative array size |
| SignatureBundle.ReadSignatures | app/src/main/java/dev/jkcarino/revanced/integrations/shared/PmsHookApplication.kt:36-40 | the array initializer reads `count` entries off the stream in turn and the first failure ends it; after a success the bytes consumed are exactly the framing of the blobs returned, and the rest of the stream is left unread |
| SignatureBundle.DecodeBundle | app/src/main/java/dev/jkcarino/revanced/integrations/shared/PmsHookApplication.kt:33-42 | the cursor loop returns exactly what `Decode` does, failures included |
| SignatureBundle.LengthBytes | app/src/main/java/dev/jkcarino/revanced/integrations/shared/PmsHookApplication.kt:37 | every length below 2^31 has four bytes, top bit clear, that `readInt` reads back as it |
| SignatureBundle.LengthBytesInverse | app/src/main/java/dev/jkcarino/revanced/integrations/shared/PmsHookApplication.kt:37 | a non-negative length's four bytes are the only ones that encode it |
| SignatureBundle.ReadFramedEntry | app/src/main/java/dev/jkcarino/revanced/integrations/shared/PmsHookApplication.kt:37-39 | a framed blob reads back as that blob, leaving what follows untouched |
| SignatureBundle.ReadEntryFramed | app/src/main/java/dev/jkcarino/revanced/integrations/shared/PmsHookApplication.kt:37-39 | every successful entry read is the framing of its blob |
| SignatureBundle.ReadEntryTruncated | app/src/main/java/dev/jkcarino/revanced/integrations/shared/PmsHookApplication.kt:37-38 | a cut-short entry ends the stream |
| SignatureBundle.ReadEntriesFramed | app/src/main/java/dev/jkcarino/revanced/integrations/shared/PmsHookApplication.kt:36-40 | reading from framed blobs yields those blobs in order, then continues with what follows |
| SignatureBundle.ReadEntriesSound | app/src/main/java/dev/jkcarino/revanced/integrations/shared/PmsHookApplication.kt:36-40 | whatever the entries read, their framing is at the front of the input |
| SignatureBundle.ReadEntriesSuccess | app/src/main/java/dev/jkcarino/revanced/integrations/shared/PmsHookApplication.kt:36-40 | reading `n` entries gives `blobs` if and only if the input starts with the framing of those `n` blobs |
| SignatureBundle.DecodeEncode | app/src/main/java/dev/jkcarino/revanced/integrations/shared/PmsHookApplication.kt:33-41 | round trip: the framing of at most 255 blobs, each under 2^31 bytes, decodes back to them in order (duplicates kept), whatever follows |
| SignatureBundle.DecodeSuccess | app/src/main/java/dev/jkcarino/revanced/integrations/shared/PmsHookApplication.kt:33-41 | decoding gives `blobs` if and only if the input starts with their framing |
| SignatureBundle.DecodeIgnoresTrailing | app/src/main/java/dev/jkcarino/revanced/integrations/shared/PmsHookApplication.kt:33-42 | bytes appended after a decodable bundle change nothing |
| SignatureBundle.ReadEntriesTruncated | app/src/main/java/dev/jkcarino/revanced/integrations/shared/PmsHookApplication.kt:36-40 | every strict prefix of framed entries fails at end of stream |
| SignatureBundle.DecodeTruncated | app/src/main/java/dev/jkcarino/revanced/integrations/shared/PmsHookApplication.kt:33-41 | every strict prefix of a valid bundle, the empty one included, fails with EOF |
| SignatureBundle.DecodeMissingEntries | app/src/main/java/dev/jkcarino/revanced/integrations/shared/PmsHookApplication.kt:35-38 | a count above the number of entries present fails with EOF |
| SignatureBundle.DecodeNegativeLength | app/src/main/java/dev/jkcarino/revanced/integrations/shared/PmsHookApplication.kt:37 | a length with its top bit set, after any valid entries, fails with `NegativeArraySizeException` |
| InvocationHandler.ProxyArgs | app/src/main/java/dev/jkcarino/revanced/integrations/shared/PmsHookApplication.kt:98 | the argument array a proxy hands over turns back into the call's arguments under `orEmpty()` |
| InvocationHandler.OrEmptyProxyArgs | app/src/main/java/dev/jkcarino/revanced/integrations/shared/PmsHookApplication.kt:108 | forwarding `args.orEmpty()` through a further proxy hands it the same `args`, except that an explicit empty array arrives as `null` |
| InvocationHandler.OrEmpty | app/src/main/java/dev/jkcarino/revanced/integrations/shared/PmsHookApplication.kt:108 | `args.orEmpty()`; `ProxyArgs` and `OrEmptyProxyArgs` fix its meaning |
| InvocationHandler.ArgText | app/src/main/java/dev/jkcarino/revanced/integrations/shared/PmsHookApplication.kt:100-101 | `toString()` on an argument throws `NullPointerException` exactly for `null`; a boxed number's text reads back through `toInt()` as the number when it fits an `Int` and fails otherwise |
| InvocationHandler.Request | app/src/main/java/dev/jkcarino/revanced/integrations/shared/PmsHookApplication.kt:100-101 | a `null` array throws `NullPointerException`; a successful read saw at least two arguments, took the first one's text as the package name, and parsed the second one's text to an `Int` flag |
| InvocationHandler.HasGetSignatures | app/src/main/java/dev/jkcarino/revanced/integrations/shared/PmsHookApplication.kt:102 | the `flag and GET_SIGNATURES != 0` test; `HasGetSignaturesIsAndMask` fixes its meaning |
| InvocationHandler.Matches | app/src/main/java/dev/jkcarino/revanced/integrations/shared/PmsHookApplication.kt:102 | the whole condition of line 102, bit test and package-name equality; `InterceptedIff` fixes its meaning |
| InvocationHandler.Intercepted | app/src/main/java/dev/jkcarino/revanced/integrations/shared/PmsHookApplication.kt:99-102 | the calls the handler rewrites: name, readable arguments, and line 102's condition; `InterceptedIff` and `InvokeIntercepted` fix its meaning |
| InvocationHandler.SignaturesOf | app/src/main/java/dev/jkcarino/revanced/integrations/shared/PmsHookApplication.kt:104 | the `Array(signatures.size) { Signature(signatures[it]) }` built for the forged result; `SignaturesRoundTrip` fixes its meaning |
| InvocationHandler.Forged | app/src/main/java/dev/jkcarino/revanced/integrations/shared/PmsHookApplication.kt:103-105 | the cast and `signatures` write after a matched call; `ForgedPackageInfo`, `ForgedFailures` and `ForgedIdempotent` fix its meaning |
| InvocationHandler.Call | app/src/main/java/dev/jkcarino/revanced/integrations/shared/PmsHookApplication.kt:103-108 | `method.invoke(pm, *args)` on a slot's value (`null`, the binder, or a proxy); `ProxyOverNull`, `InvokePassesThrough` and `RehookUnobservable` fix its meaning |
| InvocationHandler.Invoke | app/src/main/java/dev/jkcarino/revanced/integrations/shared/PmsHookApplication.kt:98-109 | `invoke` itself; `InvokeIntercepted`, `InvokePassesThrough`, `InvokeBadArguments` and `InterceptedIff` fix its meaning |
| InvocationHandler.HasGetSignaturesIsAndMask | app/src/main/java/dev/jkcarino/revanced/integrations/shared/PmsHookApplication.kt:102 | the division test agrees with the machine `and` of the flags' low byte with `GET_SIGNATURES` (0x40), for every `Int`, negative ones included |
| InvocationHandler.SignaturesRoundTrip | app/src/main/java/dev/jkcarino/revanced/integrations/shared/PmsHookApplication.kt:104 | one `Signature` per blob, in order, carrying exactly that blob's bytes |
| InvocationHandler.ForgedPackageInfo | app/src/main/java/dev/jkcarino/revanced/integrations/shared/PmsHookApplication.kt:103-105 | a returned `PackageInfo` keeps every field but `signatures`, which become the decoded blobs in order |
| InvocationHandler.ForgedFailures | app/src/main/java/dev/jkcarino/revanced/integrations/shared/PmsHookApplication.kt:103 | in the model, where exceptions are not wrapped: a service exception propagates as it is; `null` and non-`PackageInfo` results fail the cast |
| InvocationHandler.ForgedIdempotent | app/src/main/java/dev/jkcarino/revanced/integrations/shared/PmsHookApplication.kt:103-105 | rewriting an already rewritten result changes nothing |
| InvocationHandler.InvokeIntercepted | app/src/main/java/dev/jkcarino/revanced/integrations/shared/PmsHookApplication.kt:99-105 | a matching call is still made on the wrapped manager with the original arguments, and only its result is rewritten |
| InvocationHandler.InvokePassesThrough | app/src/main/java/dev/jkcarino/revanced/integrations/shared/PmsHookApplication.kt:99-108 | for a call that is not intercepted and whose arguments lines 100-101 can read (`InvokeBadArguments` covers the rest), the proxy returns or throws exactly what the wrapped manager does for the same arguments, `null` arguments as an empty array |
| InvocationHandler.InvokeBadArguments | app/src/main/java/dev/jkcarino/revanced/integrations/shared/PmsHookApplication.kt:100-101 | a `getPackageInfo` call whose arguments cannot be read throws from the handler, whatever the service would do |
| InvocationHandler.RequestOfPackageInfoCall | app/src/main/java/dev/jkcarino/revanced/integrations/shared/PmsHookApplication.kt:100-101 | `(packageName, flags, ...)` is read as that package name and flags when the flags fit an `Int`, and throws `NumberFormatException` otherwise |
| InvocationHandler.InterceptedIff | app/src/main/java/dev/jkcarino/revanced/integrations/shared/PmsHookApplication.kt:99-108 | when the arguments of lines 100-101 can be read and the wrapped manager returns a `PackageInfo` whose signatures are not already the decoded ones, the proxy's answer differs from the manager's if and only if the name is `getPackageInfo`, bit 0x40 is set and the package name is the app's, and then only in `signatures` |
| InvocationHandler.ProxyOverNull | app/src/main/java/dev/jkcarino/revanced/integrations/shared/PmsHookApplication.kt:103-108 | a proxy around a `null` package manager makes every call throw |
| InvocationHandler.RehookUnobservable | app/src/main/java/dev/jkcarino/revanced/integrations/shared/PmsHookApplication.kt:57-65 | in the model, where exceptions are not wrapped: a proxy wrapping an identically configured proxy returns and throws what the inner one does |
| Installer.PmsHookApplication.constructor | app/src/main/java/dev/jkcarino/revanced/integrations/shared/PmsHookApplication.kt:22-24 | the application object keeps the Base64 signature text it was given |
| Installer.Host.constructor | app/src/main/java/dev/jkcarino/revanced/integrations/shared/PmsHookApplication.kt:45-74 | the host starts with the given slot values, package name and broken steps |
| Installer.HookSpec | app/src/main/java/dev/jkcarino/revanced/integrations/shared/PmsHookApplication.kt:30-81 | what `hook` leaves behind; `HookedIff`, `DecodeFailureChangesNothing`, `HookedSlots`, `FailedHookSlots` and `NoRollback` fix its meaning |
| Installer.PmsHookApplication.Hook | app/src/main/java/dev/jkcarino/revanced/integrations/shared/PmsHookApplication.kt:30-81 | for every exception it models, `hook` catches it and returns a report, and it leaves the two slots exactly as `HookSpec` says |
| Installer.HookedIff | app/src/main/java/dev/jkcarino/revanced/integrations/shared/PmsHookApplication.kt:31-76 | success is reported if and only if Base64, the bundle and every reflective step go through |
| Installer.DecodeFailureChangesNothing | app/src/main/java/dev/jkcarino/revanced/integrations/shared/PmsHookApplication.kt:31-42 | a Base64 or bundle failure is reported with its cause, and neither slot changes |
| Installer.HookedSlots | app/src/main/java/dev/jkcarino/revanced/integrations/shared/PmsHookApplication.kt:53-74 | after success both slots hold the same proxy, around the original `sPackageManager` with the decoded blobs and the context's package name |
| Installer.FailedHookSlots | app/src/main/java/dev/jkcarino/revanced/integrations/shared/PmsHookApplication.kt:44-80 | a failed step is the earliest broken one; `sPackageManager` holds the proxy exactly when that step comes after its write; `mPM` is unchanged |
| Installer.NoRollback | app/src/main/java/dev/jkcarino/revanced/integrations/shared/PmsHookApplication.kt:68-74 | if only the `mPM` lookup or write fails, the proxy stays in `sPackageManager` |
| Installer.HookedCalls | app/src/main/java/dev/jkcarino/revanced/integrations/shared/PmsHookApplication.kt:57-74 | in the model, where exceptions are not wrapped: after success, for calls whose arguments lines 100-101 can read (`InvokeBadArguments` covers the rest), calls through either slot agree and are the original manager's answers, with signatures forged exactly on the intercepted calls |

## Left out

- Base64 decoding (line 32) is a library call. `Hook` takes it as the parameter `base64`, and `None` stands for the exception it throws.
- The reflection machinery (lines 45-74) is left out. That is `Class.forName`, `getDeclaredMethod`, `getDeclaredField`, `isAccessible`, `Field.get`/`set` and `Proxy.newProxyInstance`. Each group becomes one `Step`, and `Host.broken` says which steps throw. `context.packageName` and `context.packageManager` are taken not to throw.
- InvocationHandler.InvokePassesThrough: does not model exception wrapping. On a JVM, `Method.invoke` wraps a service exception in `InvocationTargetException`, and the proxy then rethrows it as `UndeclaredThrowableException`. The model propagates the service's exception unchanged.
- InvocationHandler.Call: does not model exception wrapping. On a JVM, `method.invoke` (lines 103 and 108) wraps an exception `e` thrown by the target in `InvocationTargetException`, and the proxy rethrows that as `UndeclaredThrowableException`, since `IPackageManager` does not declare it. `Call` returns `e` unwrapped. An instance method invoked on `null` throws `NullPointerException` without a wrapper, as modelled.
- Installer.HookedCalls: equal answers only for returned values. A service exception `e` reached through either installed slot arrives as `UndeclaredThrowableException(InvocationTargetException(e))`, while the original manager throws `e` itself.
- InvocationHandler.ForgedFailures: does not model exception wrapping. On a JVM the service exception of line 103 reaches the caller wrapped, first in `InvocationTargetException` and then in `UndeclaredThrowableException`, not as it was thrown.
- InvocationHandler.RehookUnobservable: holds for returned values but not for exceptions on a JVM. Each proxy layer wraps a thrown exception once more, so an outer proxy throws a differently wrapped exception than the inner one.
- Installer.PmsHookApplication.Hook: does not model `Error`s. `ByteArray(n)` with a huge `n` raises `OutOfMemoryError`, which `catch (error: Exception)` on line 77 does not catch, so `hook` can throw.
- Logging (lines 76-79) is left out. `Hook` returns a `Report` instead of printing.
- Concurrency is left out. The handler holds only immutable fields (lines 89-91), so each call is modelled on its own.
- SignatureBundle.Decode: does not model `OutOfMemoryError`. A length too large to allocate raises it, and it escapes `catch (Exception)`. In the model such a length fails at end of stream, or succeeds if the bytes are present.
- JvmInt.ParseInt: accepts ASCII digits only. The JVM parser also accepts other Unicode decimal digits, which never occur in the decimal text of a boxed number.
- `PackageInfo` and `Signature` are values with the fields the handler touches. The write to `signatures` on line 104 is a record update on the object the forwarded call returned. Since that object comes fresh from the service, no other holder observes the write.
- A method is identified by its name alone, so overloads of `getPackageInfo` are treated as one method, as line 99 does. Any argument other than a boxed number or `null` is a `Text` holding its `toString()`.
- Kotlin's cast of `null` to `PackageInfo` is modelled as `NullPointerException`, which is what Kotlin 1.4 and later throw. Older compilers threw `TypeCastException`.
- `app/src/main/java/dev/jkcarino/revanced/integrations/all/signature/SignatureHookApp.kt` is not part of this model. It is bootstrap glue that calls `hook` once.
- `app/build.gradle.kts` is not part of this model. It is build configuration.
- Closing the streams (`use`, lines 33-34) is left out. It has no effect on byte-array streams.
