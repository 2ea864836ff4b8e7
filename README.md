# Cell-info collection and upload, modelled in Dafny

VisualProg is an Android app that reads the radio cells the phone can see and
reports them to a collector server. Its core is `CellInfoModule`, which does two
things:

- `fetchCellInfo` reads the platform's list of cell readings. It turns each
  reading into a JSON object, collected in a JSON array. It builds a
  human-readable text block for each reading of a handled technology (GSM, LTE,
  WCDMA). It hands the text to the screen callback and the array to
  `sendToServer`. A missing list becomes a single error object and the text
  "No cell info available".
- `sendToServer` is a retry loop of at most 5 attempts. Each attempt first GETs
  `/api/health`. Only when that answers HTTP 200 does it POST the payload. A POST
  answered with 200 ends the upload. Any other outcome counts a failed attempt,
  exceptions included. Each failed attempt except the last is followed by a
  2000 ms pause. When all attempts fail, a "server unavailable" notice is shown.

Modules:

- `Wrappers`: the `Option` type.
- `Json`: the part of org.json the encoder uses.
  - A JSON object is an insertion-ordered list of (name, value) members.
  - `put` on a known name replaces its value in place.
  - `put` of a null value removes the name.
  - Lookups, puts and removes are proved against each other.
- `Decimal`: Kotlin's rendering of an `Int` in a string template. A parser
  serves as its inverse.
- `CellInfo`: the readings, the record of each reading, and the text of each
  reading. It has the `for` loop of `fetchCellInfo` as a method and
  `fetchCellInfo` itself.
- `Delivery`: the `while` loop of `sendToServer` as a method.
  - The network is an oracle `net`: `net(k)` is what the server answers during
    attempt `k`, both the health response and the POST response. A response is
    a status code or a thrown exception.
  - The method records what it does as a trace of events: `HealthCheck`, `Post`,
    `Sleep` and `NotifyUnavailable`.
  - `Run` is the reference definition of the whole trace. The loop is proved to
    produce exactly `Run`, and the properties of the upload are proved about
    `Run`.

## Model

| member | source | states |
|---|---|---|
| Delivery.SendToServer | app/src/main/java/com/example/visualprog/cellinfo/CellInfoModule.kt:120-187 | The while loop produces exactly the reference trace `Run(data, net, 0)`. The final counter is the first attempt whose health check and POST both answered 200, or 5 when none did, and never exceeds 5. |
| Delivery.FirstDeliveredSpec | app/src/main/java/com/example/visualprog/cellinfo/CellInfoModule.kt:123-127 | The counter the loop stops at lies between its start and 5. Every attempt before it failed. If it is below 5, that attempt delivered. It equals 5 exactly when every attempt failed. |
| Delivery.FirstDeliveredAt | app/src/main/java/com/example/visualprog/cellinfo/CellInfoModule.kt:162 | A counter value with only failures before it, that is either 5 or a delivered attempt, is the stopping point. |
| Delivery.FailuresThenRun | app/src/main/java/com/example/visualprog/cellinfo/CellInfoModule.kt:161-175 | The events of the failed attempts so far, each followed by its pause, plus the rest of the run make up the whole run. This is the loop invariant's partner. |
| Delivery.RunAfterFailure | app/src/main/java/com/example/visualprog/cellinfo/CellInfoModule.kt:162-175 | A failed attempt is followed by its pause and then by the run from the incremented counter. This holds whether the failure was a health non-200, a POST non-200 or an exception. |
| Delivery.RunStarts | app/src/main/java/com/example/visualprog/cellinfo/CellInfoModule.kt:127-136 | Every attempt opens with its health check. Past the last attempt, only the notice remains. |
| Delivery.HealthChecksMade | app/src/main/java/com/example/visualprog/cellinfo/CellInfoModule.kt:123-127 | The run makes one health check per attempt. That is up to and including the delivered attempt, or all 5 when none delivers, so never more than 5 iterations. |
| Delivery.PausesBetweenChecks | app/src/main/java/com/example/visualprog/cellinfo/CellInfoModule.kt:162-175 | There is exactly one pause fewer than health checks, so at most 4 pauses in a complete run. |
| Delivery.CountAfterFailure | app/src/main/java/com/example/visualprog/cellinfo/CellInfoModule.kt:127-175 | The event counts after a failed attempt are: one health check, one POST if health answered 200, one pause unless it was the last attempt, and then the counts of the rest. |
| Delivery.PostOnlyAfterHealthOk | app/src/main/java/com/example/visualprog/cellinfo/CellInfoModule.kt:136-148 | Every POST immediately follows a health check of the same attempt, and that health check answered 200. Every POST carries the same payload. |
| Delivery.AttemptGated | app/src/main/java/com/example/visualprog/cellinfo/CellInfoModule.kt:136-140 | Within one attempt, the POST is issued only after a 200 health answer. |
| Delivery.SleepOnlyBetweenAttempts | app/src/main/java/com/example/visualprog/cellinfo/CellInfoModule.kt:163-166 | Every pause lasts 2000 ms and is directly followed by the next health check. No pause ends the run, so none comes after the final failed attempt. |
| Delivery.AttemptShape | app/src/main/java/com/example/visualprog/cellinfo/CellInfoModule.kt:127-175 | One attempt opens with its health check and contains no pause; pauses come only after the attempt. |
| Delivery.RunEnds | app/src/main/java/com/example/visualprog/cellinfo/CellInfoModule.kt:150-153 | When some attempt delivers, the run ends with that attempt's POST, with nothing after it. When none does, the run ends with the notice. |
| Delivery.NotifyExactlyWhenAllFailed | app/src/main/java/com/example/visualprog/cellinfo/CellInfoModule.kt:182-185 | The notice occurs exactly once when every attempt failed, and never when any attempt delivered. |
| Delivery.FailedBetweenStep | app/src/main/java/com/example/visualprog/cellinfo/CellInfoModule.kt:183 | All attempts from `from` failed exactly when attempt `from` failed and all later ones did too. |
| Json.GetHas | app/src/main/java/com/example/visualprog/cellinfo/CellInfoModule.kt:57-67 | A lookup finds a value exactly when the name is present, and the value found is the one bound to that name. |
| Json.GetAt | app/src/main/java/com/example/visualprog/cellinfo/CellInfoModule.kt:57-67 | In an object without repeated names, looking up a member's name gives that member's value. |
| Json.PutPlacement | app/src/main/java/com/example/visualprog/cellinfo/CellInfoModule.kt:60-63 | `put` appends a new name at the end. On a known name the length is unchanged. |
| Json.PutInPlace | app/src/main/java/com/example/visualprog/cellinfo/CellInfoModule.kt:60-63 | In an object without repeated names, `put` on a known name replaces that member's value at its position. Every other member stays where it was, unchanged. |
| Json.RemovePlacement | app/src/main/java/com/example/visualprog/cellinfo/CellInfoModule.kt:64-67 | Removing an absent name changes nothing. Removing never lengthens the object. |
| Json.PutNullableAbsent | app/src/main/java/com/example/visualprog/cellinfo/CellInfoModule.kt:64-67 | On an absent name, a nullable `put` appends the member for a value and adds nothing for null. |
| Json.PutGet | app/src/main/java/com/example/visualprog/cellinfo/CellInfoModule.kt:60-63 | After `put`, the name holds the new value and every other name holds what it held before. |
| Json.RemoveGet | app/src/main/java/com/example/visualprog/cellinfo/CellInfoModule.kt:64-67 | After `remove`, the name is absent and every other name holds what it held before. |
| Json.PutNullableGet | app/src/main/java/com/example/visualprog/cellinfo/CellInfoModule.kt:64-67 | A nullable `put` reads back as the value, or as absent for null, and leaves other names alone. |
| Json.PutKeepsDistinct | app/src/main/java/com/example/visualprog/cellinfo/CellInfoModule.kt:60-63 | `put` never creates a repeated name and adds exactly its own name. |
| Json.RemoveKeepsDistinct | app/src/main/java/com/example/visualprog/cellinfo/CellInfoModule.kt:64-67 | `remove` keeps names distinct and takes away exactly its own name. |
| Json.HasTail | app/src/main/java/com/example/visualprog/cellinfo/CellInfoModule.kt:57-67 | A name is present exactly when it is the first member's name or is present in the rest. |
| Decimal.NatToString | app/src/main/java/com/example/visualprog/cellinfo/CellInfoModule.kt:69-71 | A natural number renders as at least one digit with no leading zero, and 0 renders as "0". |
| Decimal.IntToString | app/src/main/java/com/example/visualprog/cellinfo/CellInfoModule.kt:69-71 | A negative number renders with a minus sign followed by digits without a leading zero. Any other number renders as digits only. |
| Decimal.DigitsOfNat | app/src/main/java/com/example/visualprog/cellinfo/CellInfoModule.kt:69-71 | The digits written for a natural number have that number as their value. |
| Decimal.IntToStringRoundTrip | app/src/main/java/com/example/visualprog/cellinfo/CellInfoModule.kt:69-71 | Parsing the rendered text gives back the number, so the text loses no information. |
| Decimal.IntToStringInjective | app/src/main/java/com/example/visualprog/cellinfo/CellInfoModule.kt:69-71 | Different numbers render to different texts. |
| CellInfo.PutFieldsInOrder | app/src/main/java/com/example/visualprog/cellinfo/CellInfoModule.kt:60-67 | The five `put` calls of a branch produce their members in call order. A null operator adds no member. |
| CellInfo.EncodeCellMembers | app/src/main/java/com/example/visualprog/cellinfo/CellInfoModule.kt:57-106 | GSM and WCDMA records are `type` "GSM"/"WCDMA", `cellId` = cid, `signalStrength` = dbm, `locationAreaCode` = lac, then `operator` when known. LTE records have `cellId` = ci and `trackingAreaCode` = tac. A reading of any other kind yields the empty object. |
| CellInfo.RecordKeysDistinct | app/src/main/java/com/example/visualprog/cellinfo/CellInfoModule.kt:57-106 | No record holds a name twice. |
| CellInfo.ErrorRecord | app/src/main/java/com/example/visualprog/cellinfo/CellInfoModule.kt:113 | The error object is the single member `error` = "No cell info available". |
| CellInfo.PutFieldsGet | app/src/main/java/com/example/visualprog/cellinfo/CellInfoModule.kt:59-67 | Each name of a record reads back the value of its last `put`. Names that were never put are absent. |
| CellInfo.FieldLookups | app/src/main/java/com/example/visualprog/cellinfo/CellInfoModule.kt:59-105 | A handled record gives back its type, cell id, strength, area code and operator. The other area name is absent. |
| CellInfo.NamesDistinct | app/src/main/java/com/example/visualprog/cellinfo/CellInfoModule.kt:60-79 | The three `type` values differ from each other, and so do the two area-code names. |
| CellInfo.DecodeFields | app/src/main/java/com/example/visualprog/cellinfo/CellInfoModule.kt:59-105 | A record whose lookups give a handled reading's fields decodes to that reading. |
| CellInfo.DecodeEncode | app/src/main/java/com/example/visualprog/cellinfo/CellInfoModule.kt:58-106 | Decoding the record of any reading gives the reading back. No field is lost or swapped, the technology included. |
| CellInfo.ConcatLast | app/src/main/java/com/example/visualprog/cellinfo/CellInfoModule.kt:68-72 | The last string appended to a builder is at its end. |
| CellInfo.LinesShape | app/src/main/java/com/example/visualprog/cellinfo/CellInfoModule.kt:68-72 | The appended text of a handled reading starts with "Type: " and ends with a blank line. |
| CellInfo.BlockShape | app/src/main/java/com/example/visualprog/cellinfo/CellInfoModule.kt:68-104 | A reading's text is empty exactly for an unhandled kind. Otherwise it starts with "Type: " and ends with "\n\n". |
| CellInfo.BlockShowsRecord | app/src/main/java/com/example/visualprog/cellinfo/CellInfoModule.kt:59-105 | Each reading's text is exactly its record printed line by line. The area line's label follows the area name in the record, and a missing operator prints as "null". |
| CellInfo.DisplayCons | app/src/main/java/com/example/visualprog/cellinfo/CellInfoModule.kt:56-108 | The text of a list is the first reading's text followed by the text of the rest. |
| CellInfo.DisplayAppend | app/src/main/java/com/example/visualprog/cellinfo/CellInfoModule.kt:56-108 | Appending a reading to the list appends its text to the whole text. |
| CellInfo.DisplayPrefix | app/src/main/java/com/example/visualprog/cellinfo/CellInfoModule.kt:56-108 | One more reading of the list adds its text at the end. |
| CellInfo.Handled | app/src/main/java/com/example/visualprog/cellinfo/CellInfoModule.kt:58-106 | A reading is kept exactly when it is in the list and of a handled kind. The result is no longer than the list. |
| CellInfo.HandledAppend | app/src/main/java/com/example/visualprog/cellinfo/CellInfoModule.kt:56-108 | Filtering keeps the list order: the handled readings of two lists in turn are those of the first, then those of the second. |
| CellInfo.DisplaySkipsOther | app/src/main/java/com/example/visualprog/cellinfo/CellInfoModule.kt:56-109 | Readings of unhandled kinds add nothing to the text. The text is that of the handled readings alone. |
| CellInfo.EncodeAllPrefix | app/src/main/java/com/example/visualprog/cellinfo/CellInfoModule.kt:107 | Encoding one more reading appends its record to the array. |
| CellInfo.EncodeAllAt | app/src/main/java/com/example/visualprog/cellinfo/CellInfoModule.kt:56-108 | The array has one record per reading, and each record encodes the reading at the same position. |
| CellInfo.BuildCellInfo | app/src/main/java/com/example/visualprog/cellinfo/CellInfoModule.kt:52-109 | The for loop appends exactly one record per reading in input order, the empty one for unhandled kinds included. The text it builds is the readings' texts in order. |
| CellInfo.FetchCellInfo | app/src/main/java/com/example/visualprog/cellinfo/CellInfoModule.kt:45-118 | Without the permission, nothing happens. Without a list, the single error object is sent and the error text shown. Otherwise the records and text of `BuildCellInfo` are shown and sent, and the upload trace is that of `sendToServer` on that array. |

## Left out

- Periodic scheduling (`startFetching`, `stopFetching`, `fetchRunnable`, the 1 s `fetchInterval`) is Android `Handler`/`Looper` plumbing; one call of `fetchCellInfo` is modelled.
- The `thread { }` worker of `sendToServer` is concurrency. In the model the upload runs to completion inside the call, and its trace is returned next to the text and the array.
- HTTP details are network I/O and become the oracle `net`. These include the URLs, the request method and headers, the 5000 ms connect and read timeouts, and the output stream. A timeout is one of the exceptions the oracle can report as `Thrown`.
- `Thread.sleep` becomes a `Sleep(2000)` event; real time is not modelled. An `InterruptedException` thrown by the sleep inside the `try` would make the catch block count the same attempt twice. Interruption is not modelled.
- The text of the Toast and its posting to the main thread are UI; the notice is the `NotifyUnavailable` event.
- The location-permission check is an OS service and becomes a boolean parameter.
- The `onCellInfoFetched` callback is a UI side effect; the text it would receive is returned instead.
- The platform's `allCellInfo` list becomes an input parameter.
- `println` and `printStackTrace` logging are not modelled.
- Serialising the array to its JSON text (`data.toString()`) is not modelled. The payload is the array of ordered records itself.
- The telephony API's `Int` fields are 32-bit `Int32` values and are not inspected; platform sentinel values such as "unavailable" pass through unchanged, as in the code.
- The CDMA, NR and TD-SCDMA kinds are one `Other` reading: the code reads none of their fields.
- `MainActivity.kt` and `LocationModule.kt` are UI and location plumbing and are not part of this model.
- The `HealthCheck` and `Post` events mark that the attempt entered that step, not that a request reached the server: an exception from building the URL, opening the connection or getting its output stream (lines 130-131, 139, 147) fails the attempt as well. A `Post` event is recorded whenever the health check answered 200, even if the POST then throws.
