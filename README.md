# Windows Store plug-in: reply shaping, in Dafny

This project models the Windows side of a Flutter plug-in that reads the current
app's Microsoft Store license and lists its associated add-on products. Each
request gets its answer from the platform (`StoreContext.GetAppLicenseAsync` or
`StoreContext.GetAssociatedStoreProductsAsync`). The plug-in turns that answer
into exactly one reply to its `result` callback:
- either a message record: the license with its add-on licenses, or the product
  list with prices;
- or a `FlutterError` whose code is the decimal HRESULT.

Three source files are modelled:

- `windows/windows_store_helper.cpp` (module `StoreHelper`):
  - the product-kind name table and its inverse;
  - the billing-period unit mapping;
  - `dateTimeToISO8601`, which converts a WinRT `DateTime` (100 ns ticks since
    1601-01-01 UTC) to a `FILETIME`, breaks it into a `SYSTEMTIME` and prints it
    as `YYYY-MM-DDTHH:MM:SSZ`.
- `windows/windows_store_api.cpp` (module `StoreApi`): the current
  `WindowsStoreApiInstance`. It has two asynchronous operations, each proved to
  call `result` once with a reply function. Each reply function is specified:
  - field by field;
  - list element by list element, in map-view iteration order;
  - error case by error case.
- `windows/windows_store_plugin.cpp` (module `StorePlugin`): the older
  `WindowsStoreApiInstance`. It has its own kind table and its own timestamp
  formatter, and that formatter is wrong (see Findings). Its product reply
  uses that formatter, as the code does. The reply is proved to agree with
  the newer one on both error paths and on every product field except the
  sale end date. The same reply built with the corrected formatter is proved
  equal to the newer one. Its five-field license reply is proved to agree
  with the newer one on the five fields.

The supporting modules are these:
- `Numerics`:
  - fixed-width integers;
  - C++ division, which truncates toward zero;
  - `std::to_string`, with a parser and a round-trip proof;
  - `printf`'s `%0Nd`, with a parser and a round-trip proof.
- `Calendar`: `FileTimeToSystemTime` on the proleptic Gregorian calendar from
  1601, with its inverse `SystemTimeToFileTime` and a round-trip proof.
- `Timestamp`: the shared `sprintf_s` layout and a parser for it.
- `MapView`: the range-for over an `IMapView` that fills a list.
- `Messages`: the records sent back, and the reply callback as a class that
  records its calls.
- `WinRT`: what the platform returns, or the `hresult_error` it throws, as
  plain values.

## Model

| member | source | states |
|---|---|---|
| StoreHelper.ProductKindName | windows/windows_store_helper.cpp:33-50 | every kind gets one of the five store API names |
| StoreHelper.ProductKindOf | windows/windows_store_helper.cpp:55-69 | a store API name maps to the kind with that name; any other string maps to Durable |
| StoreHelper.KindNameRoundTrip | windows/windows_store_helper.cpp:33-69 | kind to name to kind is the identity |
| StoreHelper.KindNameInjective | windows/windows_store_helper.cpp:33-50 | two kinds have the same name exactly when they are the same kind |
| StoreHelper.NameKindRoundTrip | windows/windows_store_helper.cpp:55-69 | name to kind to name gives the input back exactly when it is one of the five names; otherwise "Durable" |
| StoreHelper.SubscriptionBillingPeriodUnit | windows/windows_store_helper.cpp:88-109 | each of the six named duration units maps to the unit of the same name; every other value maps to Month |
| StoreHelper.BillingPeriodUnitRoundTrip | windows/windows_store_helper.cpp:88-109 | every billing-period unit comes back from the duration unit of its name |
| StoreHelper.ToFileTime | windows/windows_store_helper.cpp:74 | the FILETIME words spell the tick count; FileTimeToSystemTime accepts it exactly when the DateTime is non-negative |
| StoreHelper.DateTimeToISO8601 | windows/windows_store_helper.cpp:71-86 | before year 10000 the text has the form `YYYY-MM-DDTHH:MM:SSZ` and parses back to a valid date and time whose ticks are the DateTime rounded down to a whole second |
| StoreHelper.SameSecondSameText | windows/windows_store_helper.cpp:71-86 | two DateTimes in the same whole second print the same text |
| StoreHelper.SameTextIffSameSecond | windows/windows_store_helper.cpp:71-86 | before year 10000, two DateTimes print the same text exactly when they fall in the same whole second |
| StoreHelper.FourDigitYear | windows/windows_store_helper.cpp:81-83 | a DateTime before 10000-01-01 gets a year of at most four digits, so `%04d` prints exactly four |
| Calendar.FileTimeOfTicks | windows/windows_store_helper.cpp:74 | the two 32-bit words of a tick count in [0, 2^64), and whether FileTimeToSystemTime accepts them (top bit clear) |
| Calendar.YearAndDay | windows/windows_store_helper.cpp:77 | a day count splits into a year from 1601 on and a day within that year, the days of earlier years adding up to the count |
| Calendar.MonthAndDay | windows/windows_store_helper.cpp:77 | a day of the year splits into a month and a valid day of that month |
| Calendar.FileTimeToSystemTime | windows/windows_store_helper.cpp:76-77 | the result is a valid calendar date and time, and converting it back gives the FILETIME rounded down to a millisecond |
| Calendar.SystemTimeToTicks | windows/windows_store_helper.cpp:76-77 | the inverse of FileTimeToSystemTime (SystemTimeToFileTime): the ticks split back into the date's day count, the second of the day and the milliseconds |
| Calendar.SystemTimeRoundTrip | windows/windows_store_helper.cpp:76-77 | SystemTimeToFileTime followed by FileTimeToSystemTime gives back every valid SYSTEMTIME below the FILETIME limit |
| Calendar.SystemTimeToTicksInjective | windows/windows_store_helper.cpp:76-77 | different valid SYSTEMTIMEs stand for different tick counts |
| Calendar.DaysBeforeYearGrows | windows/windows_store_helper.cpp:77 | a later year starts after every day of an earlier year |
| Calendar.SameSecondSameSystemTime | windows/windows_store_helper.cpp:77-83 | every field that is printed depends only on the whole second |
| Calendar.WholeSecondOfSystemTime | windows/windows_store_helper.cpp:77-83 | the printed fields stand for the FILETIME rounded down to a whole second |
| Calendar.FirstDay | windows/windows_store_plugin.cpp:176-178 | a SYSTEMTIME is on 1601-01-01 exactly when it stands for less than one day of ticks |
| Timestamp.Format | windows/windows_store_helper.cpp:80-85 | for a year of at most four digits, the `sprintf_s` text has the fixed form and parses back to the same date and time without milliseconds |
| Numerics.TruncDiv | windows/windows_store_api.cpp:82 | C++ integer division rounds the quotient toward zero, for either sign of the dividend |
| Numerics.TruncDivTicksToSeconds | windows/windows_store_plugin.cpp:169-170 | casting ticks to milliseconds and then to seconds truncates the ticks to whole seconds |
| Numerics.DecimalString | windows/windows_store_api.cpp:92 | `std::to_string` of an integer is not empty and parses back to that integer |
| Numerics.DecimalStringInjective | windows/windows_store_api.cpp:92 | two codes print the same exactly when they are equal |
| Numerics.PadDecimal | windows/windows_store_helper.cpp:81-83 | `%0Nd` output is all digits, at least N long, parses back to the value, and is exactly N long exactly when the value has at most N digits |
| MapView.ConvertValues | windows/windows_store_api.cpp:42-52 | one converted entry per map-view value, in iteration order |
| MapView.ConvertEach | windows/windows_store_api.cpp:43-52 | the range-for with `push_back` builds exactly that list |
| Messages.ReplySink.Reply | windows/windows_store_api.cpp:86 | a call to `result` appends its reply and changes nothing else |
| StoreApi.ErrorFromException | windows/windows_store_api.cpp:88-93 | a caught `hresult_error` becomes an error whose code parses back to the HRESULT, with the exception's message and empty details |
| StoreApi.ExtendedErrorReply | windows/windows_store_api.cpp:159-165 | the error code parses back to the extended error; the message is the general one, and ends in ", no user connected" exactly when the code is ERROR_NO_SUCH_USER; the details are empty |
| StoreApi.ErrorMessagesDiffer | windows/windows_store_api.cpp:161-163 | the no-user message is the general message followed by the suffix, and the general message does not end with it |
| StoreApi.TrialMilliseconds | windows/windows_store_api.cpp:82 | the trial time in ticks divided by 10000 is in whole milliseconds, truncated toward zero, for either sign |
| StoreApi.AddOnLicenseList | windows/windows_store_api.cpp:42-52 | one add-on per license in the map view, in order, with its offer token, its SKU and its formatted expiration date |
| StoreApi.AppLicenseReply | windows/windows_store_api.cpp:30-94 | an error exactly when the platform threw, and then the exception's error; otherwise all seven fields of the license record, from the license |
| StoreApi.GetAppLicenseAsync | windows/windows_store_api.cpp:30-94 | `result` is called exactly once, with AppLicenseReply |
| StoreApi.ProductKindQuery | windows/windows_store_api.cpp:104-107 | the query holds one kind name, and that name maps back to the requested kind |
| StoreApi.ProductList | windows/windows_store_api.cpp:169-197 | one product per map-view value, in order, with every field and price field copied, the kind read from its name and the sale end date formatted |
| StoreApi.ProductsReply | windows/windows_store_api.cpp:96-206 | an error exactly when the platform threw or the extended error is not S_OK; the error code parses back to that HRESULT, the details are empty, and the no-user message appears exactly for ERROR_NO_SUCH_USER; otherwise the product list |
| StoreApi.GetAssociatedStoreProductsAsync | windows/windows_store_api.cpp:96-206 | the store is asked for the requested kind only, and `result` is called exactly once, with ProductsReply of the store's answer |
| StorePlugin.ProductKindName | windows/windows_store_plugin.cpp:127-144 | every kind gets one of the five store API names |
| StorePlugin.ProductKindOf | windows/windows_store_plugin.cpp:149-163 | each of the five names maps to the kind with that name; any other string maps to Durable |
| StorePlugin.KindTablesAgree | windows/windows_store_plugin.cpp:127-163 | the plug-in's two kind functions agree with the helper's on every kind and every string |
| StorePlugin.WholeSeconds | windows/windows_store_plugin.cpp:168-170 | the two `duration_cast`s give the ticks truncated toward zero to whole seconds |
| StorePlugin.HighWordOfSeconds | windows/windows_store_plugin.cpp:177 | the arithmetic `seconds >> 32` cast to DWORD is below 2^8 for a non-negative seconds count and has its top bit set for a negative one |
| StorePlugin.FileTimeAsWritten | windows/windows_store_plugin.cpp:169-177 | the low word is the low 32 bits of seconds × 10^7 plus the 1601-to-1970 offset; FileTimeToSystemTime accepts the FILETIME exactly when the DateTime is above −1 s; then it is below ((seconds >> 32) + 1) × 2^32 ticks, not the tick sum |
| StorePlugin.DateTimeToISO8601AsWritten | windows/windows_store_plugin.cpp:165-187 | for every DateTime below 2^36 seconds (up to the year 3778), the as-written text parses to a time on 1601-01-01 |
| StorePlugin.AsWrittenWithinFirstDay | windows/windows_store_plugin.cpp:176-177 | below 2^36 seconds the as-written FILETIME is less than one day of ticks |
| StorePlugin.AsWrittenDefinedBelowBound | windows/windows_store_plugin.cpp:176-178 | every DateTime from 1601 up to 2^36 seconds neither overflows the int64 sum nor makes FileTimeToSystemTime fail |
| StorePlugin.FileTimeCorrected | windows/windows_store_plugin.cpp:175-177 | the corrected FILETIME is the DateTime rounded down to a whole second, and FileTimeToSystemTime accepts it |
| StorePlugin.DateTimeToISO8601 | windows/windows_store_plugin.cpp:165-187 | the corrected formatter prints exactly what the helper's `dateTimeToISO8601` prints |
| StorePlugin.CorrectedNotFirstDay | windows/windows_store_plugin.cpp:165-187 | from the second day on, the corrected text parses to a date other than 1601-01-01 |
| StorePlugin.AsWrittenWrongAfterFirstDay | windows/windows_store_plugin.cpp:165-187 | from the second day up to 2^36 seconds, the as-written text differs from the corrected one for every DateTime |
| StorePlugin.NewYear2024Counterexample | windows/windows_store_plugin.cpp:165-187 | 2024-01-01T00:00:00Z prints as a time on 1601-01-01; the corrected formatter prints it as 2024-01-01T00:00:00Z |
| StorePlugin.NewYear2024AsWritten | windows/windows_store_plugin.cpp:165-187 | for 2024-01-01T00:00:00Z the code fills high word 3 and low word 1271414784, and the text parses to 1601-01-01T00:23:35Z |
| StorePlugin.AppLicenseReply | windows/windows_store_plugin.cpp:34-53 | an error exactly when the platform threw, and then the exception's error; otherwise the five fields of the five-argument constructor, with the trial time in milliseconds |
| StorePlugin.AppLicenseRepliesAgree | windows/windows_store_plugin.cpp:43-46 | the older license reply is the newer one without the expiration date and the add-ons |
| StorePlugin.GetAppLicenseAsync | windows/windows_store_plugin.cpp:34-53 | `result` is called exactly once, with the plug-in's AppLicenseReply |
| StorePlugin.ProductKindQuery | windows/windows_store_plugin.cpp:63-66 | the query holds the requested kind's name, the same query the newer file sends |
| StorePlugin.ProductFromStoreCorrected | windows/windows_store_plugin.cpp:86-110 | with the corrected formatter, a product converts exactly as in the newer file |
| StorePlugin.ProductsConvertAlike | windows/windows_store_plugin.cpp:86-110 | a product converts as in the newer file in every field but the sale end date, which is the as-written text |
| StorePlugin.ProductList | windows/windows_store_plugin.cpp:83-113 | one product per map-view value, in order, with every field and price field copied, the kind read from its name and the sale end date in the as-written text |
| StorePlugin.ProductListCorrected | windows/windows_store_plugin.cpp:83-113 | the loop with the corrected formatter builds the newer file's product list |
| StorePlugin.ProductListsAgree | windows/windows_store_plugin.cpp:83-113 | the plug-in's list and the newer file's have the same length and agree element by element on all but the sale end date |
| StorePlugin.ProductsReply | windows/windows_store_plugin.cpp:55-122 | an error exactly when the platform threw or the extended error is not S_OK, and then the newer file's error; otherwise the plug-in's product list |
| StorePlugin.ProductsReplyCorrected | windows/windows_store_plugin.cpp:55-122 | the reply built with the corrected formatter equals the newer file's for every platform outcome |
| StorePlugin.ProductsRepliesAgree | windows/windows_store_plugin.cpp:55-122 | the plug-in's reply and the newer file's fail together with the same error, and otherwise agree on every product field but the sale end dates |
| StorePlugin.AsWrittenReplyWrong | windows/windows_store_plugin.cpp:96-98 | a successful reply with a sale end date from the second day up to 2^36 seconds differs from the corrected reply |
| StorePlugin.GetAssociatedStoreProductsAsync | windows/windows_store_plugin.cpp:55-122 | one query for the requested kind; `result` is called exactly once, with the plug-in's ProductsReply |

## Left out

- Asynchrony is not modelled: `concurrency::create_task`, `StoreContext::GetDefault` and the `.get()` waits. Each platform call is an input, either the value it returned or the `hresult_error` it threw. Only the reply the task passes to `result` is modelled.
- The `GENERATE_LICENSE_TEST_DATA` branches of `windows/windows_store_api.cpp` are not modelled. They take the clock (`clock::now()`) and fixed sample data. The model is the build without that macro.
- `winrt::to_string` (UTF-16 to UTF-8) is left out: strings are copied through unchanged. The `std::cout` and `std::cerr` logging has no effect on any reply and is left out.
- Plug-in registration (`RegisterWithRegistrar`) and the message codec are not modelled. The generated message classes are not part of this model. They are written as datatypes with the fields the constructors receive.
- The older license reply uses a five-argument constructor. Its other two fields are not visible here, so that reply is `StorePlugin.AppLicenseSummary`, the five fields given.
- StoreHelper.DateTimeToISO8601: requires a non-negative DateTime. For a negative one, `to_file_time` sets the top bit, `FileTimeToSystemTime` fails, and the code prints an uninitialised `SYSTEMTIME`, which cannot be modelled as a value. The same requirement is carried by StoreApi.AppLicenseReply, StoreApi.GetAppLicenseAsync, StoreApi.AddOnLicenseList, StoreApi.ProductList, StoreApi.ProductsReply, StoreApi.GetAssociatedStoreProductsAsync and the matching StorePlugin members, for each date they format.
- StoreHelper.DateTimeToISO8601: states the text's form only before the year 10000. After that, `%04d` prints five digits. `char buffer[32]` still holds the text, so the result is the same function, only without the fixed-width shape.
- Calendar.FileTimeToSystemTime: the day-of-week field of `SYSTEMTIME` is not modelled, because it is never printed.
- The numeric values of `StoreDurationUnit` (Minute = 0 to Year = 5), `S_OK` and `ERROR_NO_SUCH_USER` (1317) come from the Windows headers, which are not part of this model.
- StoreApi.ExtendedErrorReply: compares the extended error with the Win32 code 1317, as the code does. Whether the platform reports that condition as this value or as an HRESULT that wraps it is not modelled.
- StorePlugin.DateTimeToISO8601AsWritten: requires that the int64 expression for the low word does not overflow (signed overflow is undefined in C++) and that the DateTime is above −1 s, so that `FileTimeToSystemTime` accepts the FILETIME. Otherwise the code prints an uninitialised `SYSTEMTIME`, which cannot be modelled as a value. Every DateTime from 1601 up to 2^36 seconds meets both conditions (StorePlugin.AsWrittenDefinedBelowBound).
- StorePlugin.ProductsReply: carries the same requirement for every sale end date of a successful query, as do StorePlugin.ProductList and StorePlugin.GetAssociatedStoreProductsAsync.

## Findings

| source | as written | input that shows it | evidently intended | confidence | as-written member | corrected member |
|---|---|---|---|---|---|---|
| windows/windows_store_plugin.cpp:176-177 | the low word is the low 32 bits of seconds × 10^7 plus the 1601-to-1970 offset, although the DateTime already counts from 1601; the high word is `seconds >> 32`, not the high word of that sum. Every DateTime from 1601 to 3778 becomes a FILETIME below 2^36 ticks, i.e. a time on 1601-01-01 | DateTime 133485408000000000 (2024-01-01T00:00:00Z): seconds 13348540800 give high word 3 and low word 1271414784, printed as 1601-01-01T00:23:35Z; a product with that sale end date gets that text in the reply | the FILETIME of the DateTime's whole seconds: the same text as the helper's `dateTimeToISO8601`, here 2024-01-01T00:00:00Z | not executed; proved for every DateTime from the second day up to 2^36 seconds | StorePlugin.AsWrittenReplyWrong | StorePlugin.ProductsReplyCorrected |
