/**
 * windows_store_plugin.cpp: the older WindowsStoreApiInstance, which keeps
 * its own kind table and its own dateTimeToISO8601. Its license reply uses
 * the five-argument message constructor (no expiration date, no add-ons);
 * its product reply is shaped like the one in windows_store_api.cpp.
 *
 * Its timestamp formatter treats the tick count as if it counted from
 * 1970 and puts the seconds' high bits, not the sum's, in the high word:
 * DateTimeToISO8601AsWritten keeps that, the product reply uses it as the
 * file does, and the lemmas below show what it prints. DateTimeToISO8601
 * is the corrected formatter, and ProductsReplyCorrected the reply built
 * with it.
 */
module StorePlugin {
  import opened Wrappers
  import opened Numerics
  import opened Calendar
  import opened Timestamp
  import opened Messages
  import opened WinRT
  import StoreHelper
  import StoreApi
  import opened MapView

  // --------------------------------------------------------------- kinds

  /** getProductKindName: the store API's name for a product kind. */
  function ProductKindName(kind: StoreProductKind): (name: string)
    ensures name in StoreHelper.PRODUCT_KIND_NAMES
  {
    match kind
    case Application => "Application"
    case Game => "Game"
    case Consumable => "Consumable"
    case UnmanagedConsumable => "UnmanagedConsumable"
    case Durable => "Durable"
  }

  /** getProductKind: the kind a store API name stands for; any other string becomes Durable. */
  function ProductKindOf(name: string): (kind: StoreProductKind)
    ensures name in StoreHelper.PRODUCT_KIND_NAMES ==> ProductKindName(kind) == name
    ensures name !in StoreHelper.PRODUCT_KIND_NAMES ==> kind == Durable
  {
    if name == "Application" then Application
    else if name == "Game" then Game
    else if name == "Consumable" then Consumable
    else if name == "UnmanagedConsumable" then UnmanagedConsumable
    else if name == "Durable" then Durable
    else Durable
  }

  /** The plug-in's kind table and the helper's agree on every kind and every string. */
  lemma KindTablesAgree(kind: StoreProductKind, name: string)
    ensures ProductKindName(kind) == StoreHelper.ProductKindName(kind)
    ensures ProductKindOf(name) == StoreHelper.ProductKindOf(name)
  {
  }

  // ------------------------------------------------------------ timestamp

  /** Ticks from 1601-01-01 to 1970-01-01: the offset between FILETIME and Unix time, in 100 ns units. */
  const UNIX_EPOCH_TICKS := 116_444_736_000_000_000

  /** duration_cast to milliseconds, then to seconds: each step truncates toward zero. */
  function WholeSeconds(dt: DateTime): (s: int64)
    ensures s == TruncDiv(dt, TICKS_PER_SECOND)
  {
    TruncDivInt64(dt, 10_000);
    TruncDivInt64(TruncDiv(dt, 10_000), 1_000);
    TruncDivTicksToSeconds(dt);
    TruncDiv(TruncDiv(dt, 10_000), 1_000)
  }

  /** The int64 expression `seconds.count() * 10000000 + 116444736000000000` does not overflow. */
  predicate LowWordDefined(dt: DateTime)
  {
    IsInt64(WholeSeconds(dt) * TICKS_PER_SECOND + UNIX_EPOCH_TICKS)
  }

  lemma DivModWord(x: int, q: int, r: int)
    requires x == TWO_POW_32 * q + r && 0 <= r < TWO_POW_32
    ensures x / TWO_POW_32 == q && x % TWO_POW_32 == r
  {
  }

  /**
   * `static_cast<DWORD>(seconds >> 32)` for a seconds count of a DateTime:
   * below 2^8 when the count is non-negative, with the top bit set when it
   * is negative (the shift is arithmetic).
   */
  lemma HighWordOfSeconds(s: int)
    requires -0x100_0000_0000 <= s < 0x100_0000_0000
    ensures 0 <= s ==> s / TWO_POW_32 % TWO_POW_32 == s / TWO_POW_32 < 0x100
    ensures s < 0 ==> s / TWO_POW_32 % TWO_POW_32 >= 0x8000_0000
  {
    var q := s / TWO_POW_32;
    assert s == TWO_POW_32 * q + s % TWO_POW_32;
    if s >= 0 {
      assert q < 0x100;
      DivModWord(q, 0, q);
    } else {
      assert -0x100 <= q < 0;
      DivModWord(q, -1, q + TWO_POW_32);
    }
  }

  /**
   * The FILETIME as the plug-in fills it. The low word keeps the low 32 bits
   * of seconds * 10^7 plus the Unix offset; the high word is the seconds
   * shifted right by 32, so the FILETIME is less than one low word above
   * (seconds >> 32) * 2^32 ticks. FileTimeToSystemTime accepts it exactly
   * when the seconds count is not negative.
   */
  function FileTimeAsWritten(dt: DateTime): (ft: FileTime)
    requires LowWordDefined(dt)
    ensures ft.Valid()
    ensures ft.dwLowDateTime == (WholeSeconds(dt) * TICKS_PER_SECOND + UNIX_EPOCH_TICKS) % TWO_POW_32
    ensures IsConvertible(ft) <==> -TICKS_PER_SECOND < dt
    ensures -TICKS_PER_SECOND < dt ==> ft.Ticks() < TWO_POW_32 * (1 + WholeSeconds(dt) / TWO_POW_32)
  {
    var seconds := WholeSeconds(dt);
    HighWordOfSeconds(seconds);
    FileTime((seconds * TICKS_PER_SECOND + UNIX_EPOCH_TICKS) % TWO_POW_32, (seconds / TWO_POW_32) % TWO_POW_32)
  }

  /** The DateTimes the as-written formatter handles: no overflow, and a FILETIME FileTimeToSystemTime accepts. */
  predicate AsWrittenDefined(dt: DateTime)
  {
    LowWordDefined(dt) && -TICKS_PER_SECOND < dt
  }

  /** Seconds below 2^36 (any DateTime up to the year 3778). */
  const FIRST_DAY_BUG_BOUND := 0x10_0000_0000 * TICKS_PER_SECOND

  /**
   * The plug-in's dateTimeToISO8601 as written. For every DateTime from 1601
   * to 3778 it prints a time on 1601-01-01: the FILETIME it builds is below
   * 2^36 ticks, less than two hours.
   */
  function DateTimeToISO8601AsWritten(dt: DateTime): (text: string)
    requires AsWrittenDefined(dt)
    ensures dt < FIRST_DAY_BUG_BOUND ==>
              var p := Parse(text);
              p.Some? && p.value.year == EPOCH_YEAR && p.value.month == 1 && p.value.day == 1
  {
    var ft := FileTimeAsWritten(dt);
    var st := FileTimeToSystemTime(ft);
    if dt < FIRST_DAY_BUG_BOUND then
      AsWrittenWithinFirstDay(dt);
      FirstDay(st);
      Format(st)
    else
      Format(st)
  }

  /** Below 2^36 seconds the as-written FILETIME is less than two hours' worth of ticks. */
  lemma AsWrittenWithinFirstDay(dt: DateTime)
    requires AsWrittenDefined(dt) && dt < FIRST_DAY_BUG_BOUND
    ensures FileTimeAsWritten(dt).Ticks() < SECONDS_PER_DAY * TICKS_PER_SECOND
  {
    var s := WholeSeconds(dt);
    assert 0 <= s < 0x10_0000_0000;
    assert s / TWO_POW_32 < 16;
  }

  /** Every DateTime from 1601 up to 2^36 seconds is one the as-written formatter handles. */
  lemma AsWrittenDefinedBelowBound(dt: DateTime)
    requires 0 <= dt < FIRST_DAY_BUG_BOUND
    ensures AsWrittenDefined(dt)
  {
    assert 0 <= WholeSeconds(dt) < 0x10_0000_0000;
  }

  /** The corrected FILETIME: the whole seconds counted in ticks from 1601, as the DateTime already is. */
  function FileTimeCorrected(dt: DateTime): (ft: FileTime)
    requires StoreHelper.IsFileTimeRange(dt)
    ensures IsConvertible(ft)
    ensures ft.Ticks() == dt / TICKS_PER_SECOND * TICKS_PER_SECOND
  {
    FileTimeOfTicks(WholeSeconds(dt) * TICKS_PER_SECOND)
  }

  /**
   * dateTimeToISO8601 as evidently intended: the DateTime's UTC date and time
   * of day, to the second; exactly what the helper's formatter prints.
   */
  function DateTimeToISO8601(dt: DateTime): (text: string)
    requires StoreHelper.IsFileTimeRange(dt)
    ensures text == StoreHelper.DateTimeToISO8601(dt)
  {
    var ft1, ft2 := FileTimeCorrected(dt), StoreHelper.ToFileTime(dt);
    assert ft1.Ticks() / TICKS_PER_SECOND == dt / TICKS_PER_SECOND;
    SameSecondSameSystemTime(ft1, ft2);
    Format(FileTimeToSystemTime(ft1))
  }

  /**
   * From the second day on and up to 3778, the as-written text differs from
   * the corrected one for every DateTime: it names 1601-01-01, the corrected
   * one does not.
   */
  lemma AsWrittenWrongAfterFirstDay(dt: DateTime)
    requires SECONDS_PER_DAY * TICKS_PER_SECOND <= dt < FIRST_DAY_BUG_BOUND
    ensures AsWrittenDefined(dt)
    ensures DateTimeToISO8601AsWritten(dt) != DateTimeToISO8601(dt)
  {
    AsWrittenDefinedBelowBound(dt);
    CorrectedNotFirstDay(dt);
  }

  /** From the second day on, the corrected text does not name 1601-01-01. */
  lemma CorrectedNotFirstDay(dt: DateTime)
    requires SECONDS_PER_DAY * TICKS_PER_SECOND <= dt < FIRST_DAY_BUG_BOUND
    ensures var p := Parse(DateTimeToISO8601(dt));
            p.Some? && !(p.value.year == EPOCH_YEAR && p.value.month == 1 && p.value.day == 1)
  {
    var st := Parse(StoreHelper.DateTimeToISO8601(dt)).value;
    assert dt / TICKS_PER_SECOND >= SECONDS_PER_DAY;
    assert SystemTimeToTicks(st) >= SECONDS_PER_DAY * TICKS_PER_SECOND;
    FirstDay(st);
  }

  /** 2024-01-01T00:00:00Z, in ticks. */
  const NEW_YEAR_2024 := 133_485_408_000_000_000

  /** A concrete instance: midnight, 1 January 2024, is printed as a time on 1601-01-01 instead. */
  lemma NewYear2024Counterexample(dt: DateTime)
    requires dt == NEW_YEAR_2024
    ensures AsWrittenDefined(dt)
    ensures Parse(DateTimeToISO8601(dt)) == Some(SystemTime(2024, 1, 1, 0, 0, 0, 0))
    ensures var p := Parse(DateTimeToISO8601AsWritten(dt)); p.Some? && p.value.year == EPOCH_YEAR
  {
    AsWrittenDefinedBelowBound(dt);
    NewYear2024Corrected(dt);
  }

  /** The as-written text for midnight, 1 January 2024: high word 3, low word 1271414784, 00:23:35 on 1601-01-01. */
  lemma NewYear2024AsWritten(dt: DateTime)
    requires dt == NEW_YEAR_2024
    ensures AsWrittenDefined(dt)
    ensures FileTimeAsWritten(dt) == FileTime(1_271_414_784, 3)
    ensures Parse(DateTimeToISO8601AsWritten(dt)) == Some(SystemTime(EPOCH_YEAR, 1, 1, 0, 23, 35, 0))
  {
    NewYear2024Words(dt);
    NewYear2024AsWrittenTime(FileTimeAsWritten(dt));
  }

  lemma NewYear2024Words(dt: DateTime)
    requires dt == NEW_YEAR_2024
    ensures AsWrittenDefined(dt)
    ensures FileTimeAsWritten(dt) == FileTime(1_271_414_784, 3)
  {
    AsWrittenDefinedBelowBound(dt);
    assert WholeSeconds(dt) == 13_348_540_800;
    DivModWord(13_348_540_800, 3, 463_638_912);
    DivModWord(133_485_408_000_000_000 + UNIX_EPOCH_TICKS, 58_191_396, 1_271_414_784);
  }

  lemma NewYear2024AsWrittenTime(ft: FileTime)
    requires IsConvertible(ft) && ft.Ticks() == 14_156_316_672
    ensures FileTimeToSystemTime(ft) == SystemTime(EPOCH_YEAR, 1, 1, 0, 23, 35, 631)
  {
    FirstDayTicks();
    SystemTimeToTicksInjective(FileTimeToSystemTime(ft), SystemTime(EPOCH_YEAR, 1, 1, 0, 23, 35, 631));
  }

  lemma FirstDayTicks()
    ensures ValidSystemTime(SystemTime(EPOCH_YEAR, 1, 1, 0, 23, 35, 631))
    ensures SystemTimeToTicks(SystemTime(EPOCH_YEAR, 1, 1, 0, 23, 35, 631)) == 14_156_310_000
  {
    assert DaysBeforeYear(EPOCH_YEAR) == 0;
  }

  lemma NewYear2024Ticks()
    ensures ValidSystemTime(SystemTime(2024, 1, 1, 0, 0, 0, 0))
    ensures SystemTimeToTicks(SystemTime(2024, 1, 1, 0, 0, 0, 0)) == NEW_YEAR_2024
  {
    assert DaysBeforeYear(2024) == 154_497;
  }

  lemma NewYear2024Corrected(dt: DateTime)
    requires dt == NEW_YEAR_2024
    ensures Parse(DateTimeToISO8601(dt)) == Some(SystemTime(2024, 1, 1, 0, 0, 0, 0))
  {
    NewYear2024Ticks();
    var p := Parse(StoreHelper.DateTimeToISO8601(dt)).value;
    assert dt / TICKS_PER_SECOND * TICKS_PER_SECOND == dt;
    SystemTimeToTicksInjective(p, SystemTime(2024, 1, 1, 0, 0, 0, 0));
  }

  // -------------------------------------------------------------- license

  /** StoreAppLicenseInner as the five-argument constructor fills it. */
  datatype AppLicenseSummary = AppLicenseSummary(
    isActive: bool,
    isTrial: bool,
    skuStoreId: string,
    trialUniqueId: string,
    trialTimeRemaining: int)

  /**
   * The reply of the plug-in's GetAppLicenseAsync: the license's flags and
   * identifiers and the trial time in whole milliseconds, or the thrown
   * error. Unlike the newer reply it formats no date, so it needs none valid.
   */
  function AppLicenseReply(platform: Outcome<StoreAppLicense>): (r: ErrorOr<AppLicenseSummary>)
    ensures r.Error? <==> platform.Threw?
    ensures platform.Threw? ==> r.error == StoreApi.ErrorFromException(platform.error)
    ensures platform.Returned? ==>
              var license, info := platform.value, r.value;
              && info.isActive == license.isActive && info.isTrial == license.isTrial
              && info.skuStoreId == license.skuStoreId && info.trialUniqueId == license.trialUniqueId
              && info.trialTimeRemaining == StoreApi.TrialMilliseconds(license.trialTimeRemaining)
  {
    match platform
    case Threw(e) => Error(StoreApi.ErrorFromException(e))
    case Returned(license) =>
      Value(AppLicenseSummary(license.isActive, license.isTrial, license.skuStoreId, license.trialUniqueId,
                              StoreApi.TrialMilliseconds(license.trialTimeRemaining)))
  }

  /** Where the newer reply is defined, the two replies carry the same error, or the same five fields. */
  lemma AppLicenseRepliesAgree(platform: Outcome<StoreAppLicense>)
    requires platform.Returned? ==> StoreApi.LicenseDatesValid(platform.value)
    ensures var old_, new_ := AppLicenseReply(platform), StoreApi.AppLicenseReply(platform);
            && (old_.Error? <==> new_.Error?)
            && (old_.Error? ==> old_.error == new_.error)
            && (old_.Value? ==>
                  old_.value == AppLicenseSummary(new_.value.isActive, new_.value.isTrial, new_.value.skuStoreId,
                                                  new_.value.trialUniqueId, new_.value.trialTimeRemaining))
  {
  }

  /** GetAppLicenseAsync: `result` is called exactly once, with AppLicenseReply. */
  method GetAppLicenseAsync(platform: Outcome<StoreAppLicense>, result: ReplySink<AppLicenseSummary>)
    modifies result
    ensures result.replies == old(result.replies) + [AppLicenseReply(platform)]
  {
    match platform
    case Threw(e) =>
      result.Reply(Error(StoreApi.ErrorFromException(e)));
    case Returned(license) =>
      var skuStoreId := license.skuStoreId;
      var trialUniqueId := license.trialUniqueId;
      result.Reply(Value(AppLicenseSummary(license.isActive, license.isTrial, skuStoreId, trialUniqueId,
                                           StoreApi.TrialMilliseconds(license.trialTimeRemaining))));
  }

  // ------------------------------------------------------------- products

  function ProductKindQuery(kind: StoreProductKind): (kinds: seq<string>)
    ensures |kinds| == 1 && ProductKindOf(kinds[0]) == kind
    ensures kinds == StoreApi.ProductKindQuery(kind)
  {
    [ProductKindName(kind)]
  }

  /** Every product's sale end date is one the as-written formatter handles. */
  predicate ProductDatesPrintable(entries: seq<(string, StoreProduct)>)
  {
    forall i :: 0 <= i < |entries| ==> AsWrittenDefined(entries[i].1.price.saleEndDate)
  }

  /** The product dates matter only when the query succeeded. */
  predicate QueryDatesPrintable(platform: Outcome<StoreProductQueryResult>)
  {
    platform.Returned? && platform.value.extendedError == S_OK ==> ProductDatesPrintable(platform.value.products)
  }

  /** One product as the plug-in's loop converts it: the sale end date goes through its own formatter. */
  function ProductFromStore(p: StoreProduct): StoreProductInner
    requires AsWrittenDefined(p.price.saleEndDate)
  {
    StoreProductInner(p.storeId, p.description, p.title, p.inAppOfferToken, ProductKindOf(p.productKind),
                      StorePriceInner(p.price.currencyCode, p.price.isOnSale,
                                      DateTimeToISO8601AsWritten(p.price.saleEndDate),
                                      p.price.formattedBasePrice, p.price.formattedPrice,
                                      p.price.formattedRecurrencePrice))
  }

  /** The same conversion with the corrected formatter. */
  function ProductFromStoreCorrected(p: StoreProduct): (q: StoreProductInner)
    requires StoreHelper.IsFileTimeRange(p.price.saleEndDate)
    ensures q == StoreApi.ProductFromStore(p)
  {
    KindTablesAgree(Durable, p.productKind);
    StoreProductInner(p.storeId, p.description, p.title, p.inAppOfferToken, ProductKindOf(p.productKind),
                      StorePriceInner(p.price.currencyCode, p.price.isOnSale, DateTimeToISO8601(p.price.saleEndDate),
                                      p.price.formattedBasePrice, p.price.formattedPrice,
                                      p.price.formattedRecurrencePrice))
  }

  /** A product record with its sale end date blanked: what the two files' conversions share. */
  function WithoutSaleEndDate(q: StoreProductInner): StoreProductInner
  {
    q.(price := q.price.(saleEndDate := ""))
  }

  /**
   * Each product converts as in the newer file except for the sale end date,
   * which is the as-written text.
   */
  lemma ProductsConvertAlike(p: StoreProduct)
    requires AsWrittenDefined(p.price.saleEndDate) && StoreHelper.IsFileTimeRange(p.price.saleEndDate)
    ensures WithoutSaleEndDate(ProductFromStore(p)) == WithoutSaleEndDate(StoreApi.ProductFromStore(p))
    ensures ProductFromStore(p).price.saleEndDate == DateTimeToISO8601AsWritten(p.price.saleEndDate)
  {
    KindTablesAgree(Durable, p.productKind);
  }

  /**
   * The plug-in's product list: one entry per Products() element, in
   * iteration order, with the element's fields and price copied, its kind
   * read back from its name and its sale end date in the as-written text.
   */
  function ProductList(entries: seq<(string, StoreProduct)>): (list: seq<StoreProductInner>)
    requires ProductDatesPrintable(entries)
    ensures |list| == |entries|
    ensures forall i :: 0 <= i < |entries| ==>
              var p, q := entries[i].1, list[i];
              && q.storeId == p.storeId && q.description == p.description
              && q.title == p.title && q.inAppOfferToken == p.inAppOfferToken
              && q.productKind == ProductKindOf(p.productKind)
              && q.price.currencyCode == p.price.currencyCode && q.price.isOnSale == p.price.isOnSale
              && q.price.saleEndDate == DateTimeToISO8601AsWritten(p.price.saleEndDate)
              && q.price.formattedBasePrice == p.price.formattedBasePrice
              && q.price.formattedPrice == p.price.formattedPrice
              && q.price.formattedRecurrencePrice == p.price.formattedRecurrencePrice
  {
    ConvertValues(entries, ProductFromStore)
  }

  /** The list the loop would build with the corrected formatter: the newer file's list. */
  function ProductListCorrected(entries: seq<(string, StoreProduct)>): (list: seq<StoreProductInner>)
    requires StoreApi.ProductDatesValid(entries)
    ensures list == StoreApi.ProductList(entries)
  {
    var list := ConvertValues(entries, ProductFromStoreCorrected);
    CorrectedListsAgree(entries, list);
    list
  }

  lemma CorrectedListsAgree(entries: seq<(string, StoreProduct)>, list: seq<StoreProductInner>)
    requires StoreApi.ProductDatesValid(entries)
    requires list == ConvertValues(entries, ProductFromStoreCorrected)
    ensures list == StoreApi.ProductList(entries)
  {
    var spec := StoreApi.ProductList(entries);
    forall i | 0 <= i < |entries|
      ensures list[i] == spec[i]
    {
      assert list[i] == ProductFromStoreCorrected(entries[i].1);
    }
  }

  /** The plug-in's list and the newer file's agree element by element on everything but the sale end date. */
  lemma ProductListsAgree(entries: seq<(string, StoreProduct)>)
    requires ProductDatesPrintable(entries) && StoreApi.ProductDatesValid(entries)
    ensures |ProductList(entries)| == |StoreApi.ProductList(entries)|
    ensures forall i :: 0 <= i < |entries| ==>
              WithoutSaleEndDate(ProductList(entries)[i]) == WithoutSaleEndDate(StoreApi.ProductList(entries)[i])
  {
    var list, spec := ProductList(entries), StoreApi.ProductList(entries);
    forall i | 0 <= i < |entries|
      ensures WithoutSaleEndDate(list[i]) == WithoutSaleEndDate(spec[i])
    {
      KindTablesAgree(Durable, entries[i].1.productKind);
    }
  }

  /**
   * The reply of the plug-in's GetAssociatedStoreProductsAsync: on both error
   * paths exactly the newer file's error; otherwise the plug-in's product list.
   */
  function ProductsReply(platform: Outcome<StoreProductQueryResult>): (r: ErrorOr<AssociatedStoreProductsInner>)
    requires QueryDatesPrintable(platform)
    ensures r.Error? <==> platform.Threw? || platform.value.extendedError != S_OK
    ensures r.Error? ==> StoreApi.QueryDatesValid(platform) && r == StoreApi.ProductsReply(platform)
    ensures r.Value? ==> r.value.products == ProductList(platform.value.products)
  {
    match platform
    case Threw(e) => Error(StoreApi.ErrorFromException(e))
    case Returned(q) =>
      if q.extendedError != S_OK then Error(StoreApi.ExtendedErrorReply(q.extendedError))
      else Value(AssociatedStoreProductsInner(ProductList(q.products)))
  }

  /** The reply with the corrected formatter: the newer file's reply, for every platform outcome. */
  function ProductsReplyCorrected(platform: Outcome<StoreProductQueryResult>): (r: ErrorOr<AssociatedStoreProductsInner>)
    requires StoreApi.QueryDatesValid(platform)
    ensures r == StoreApi.ProductsReply(platform)
  {
    match platform
    case Threw(e) => Error(StoreApi.ErrorFromException(e))
    case Returned(q) =>
      if q.extendedError != S_OK then Error(StoreApi.ExtendedErrorReply(q.extendedError))
      else Value(AssociatedStoreProductsInner(ProductListCorrected(q.products)))
  }

  /**
   * The plug-in's reply and the newer file's: the same error on both error
   * paths; otherwise lists of the same length that agree on everything but
   * the sale end dates.
   */
  lemma ProductsRepliesAgree(platform: Outcome<StoreProductQueryResult>)
    requires QueryDatesPrintable(platform) && StoreApi.QueryDatesValid(platform)
    ensures var r, s := ProductsReply(platform), StoreApi.ProductsReply(platform);
            && (r.Error? <==> s.Error?)
            && (r.Error? ==> r == s)
            && (r.Value? ==>
                  && |r.value.products| == |s.value.products|
                  && forall i :: 0 <= i < |r.value.products| ==>
                       WithoutSaleEndDate(r.value.products[i]) == WithoutSaleEndDate(s.value.products[i]))
  {
    if platform.Returned? && platform.value.extendedError == S_OK {
      ProductListsAgree(platform.value.products);
    }
  }

  /**
   * A successful reply with a product whose sale end date lies between the
   * second day and 2^36 seconds differs from the reply with the corrected
   * formatter, and so from the newer file's reply.
   */
  lemma AsWrittenReplyWrong(platform: Outcome<StoreProductQueryResult>, i: int)
    requires QueryDatesPrintable(platform) && StoreApi.QueryDatesValid(platform)
    requires platform.Returned? && platform.value.extendedError == S_OK
    requires 0 <= i < |platform.value.products|
    requires SECONDS_PER_DAY * TICKS_PER_SECOND <= platform.value.products[i].1.price.saleEndDate < FIRST_DAY_BUG_BOUND
    ensures ProductsReply(platform) != ProductsReplyCorrected(platform)
  {
    var dt := platform.value.products[i].1.price.saleEndDate;
    AsWrittenWrongAfterFirstDay(dt);
    assert ProductsReply(platform).value.products[i].price.saleEndDate == DateTimeToISO8601AsWritten(dt);
    assert ProductsReplyCorrected(platform).value.products[i].price.saleEndDate == DateTimeToISO8601(dt);
  }

  /** GetAssociatedStoreProductsAsync: one query for the requested kind, one reply. */
  method GetAssociatedStoreProductsAsync(
    productKind: StoreProductKind,
    store: seq<string> -> Outcome<StoreProductQueryResult>,
    result: ReplySink<AssociatedStoreProductsInner>)
    requires QueryDatesPrintable(store(ProductKindQuery(productKind)))
    modifies result
    ensures result.replies == old(result.replies) + [ProductsReply(store(ProductKindQuery(productKind)))]
  {
    var productKindStr := ProductKindName(productKind);
    var productKinds := [productKindStr];
    var platform := store(productKinds);
    match platform
    case Threw(e) =>
      result.Reply(Error(StoreApi.ErrorFromException(e)));
    case Returned(productsResult) =>
      var hr := productsResult.extendedError;
      if hr != S_OK {
        result.Reply(Error(StoreApi.ExtendedErrorReply(hr)));
        return;
      }
      var productList := ConvertEach(productsResult.products, ProductFromStore);
      result.Reply(Value(AssociatedStoreProductsInner(productList)));
  }
}
