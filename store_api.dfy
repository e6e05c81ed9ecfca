/**
 * windows_store_api.cpp: how WindowsStoreApiInstance turns what the store
 * returns into the reply it sends back. The platform's answer is an input
 * (an Outcome: a value, or the hresult_error it threw); each operation
 * passes exactly one reply to its `result` callback.
 */
module StoreApi {
  import opened Wrappers
  import opened Numerics
  import opened Messages
  import opened WinRT
  import opened StoreHelper
  import opened MapView

  predicate EndsWith(s: string, suffix: string)
  {
    |suffix| <= |s| && s[|s| - |suffix|..] == suffix
  }

  /** The reply for a caught hresult_error: the code in decimal, the exception's message, empty details. */
  function ErrorFromException(e: HResultError): (f: FlutterError)
    ensures ParseDecimal(f.code) == Some(e.code as int)
    ensures f.message == e.message && f.details == ""
  {
    FlutterError(DecimalString(e.code), e.message, "")
  }

  const PRODUCTS_ERROR_MESSAGE := "Error while getting associated store products"
  const NO_USER_MESSAGE := "Error while getting associated store products, no user connected"
  const NO_USER_SUFFIX := ", no user connected"

  /** The no-user message extends the general one by the suffix, which the general one does not end with. */
  lemma ErrorMessagesDiffer()
    ensures !EndsWith(PRODUCTS_ERROR_MESSAGE, NO_USER_SUFFIX)
    ensures EndsWith(NO_USER_MESSAGE, NO_USER_SUFFIX) && PRODUCTS_ERROR_MESSAGE <= NO_USER_MESSAGE
  {
    assert PRODUCTS_ERROR_MESSAGE[|PRODUCTS_ERROR_MESSAGE| - 1] != NO_USER_SUFFIX[|NO_USER_SUFFIX| - 1];
    assert NO_USER_MESSAGE == PRODUCTS_ERROR_MESSAGE + NO_USER_SUFFIX;
  }

  /**
   * The reply for a product query whose ExtendedError is not S_OK: the code in
   * decimal, a message that says no user is connected exactly when the code
   * is ERROR_NO_SUCH_USER, empty details.
   */
  function ExtendedErrorReply(hr: int32): (f: FlutterError)
    ensures ParseDecimal(f.code) == Some(hr as int)
    ensures f.details == ""
    ensures PRODUCTS_ERROR_MESSAGE <= f.message
    ensures EndsWith(f.message, NO_USER_SUFFIX) <==> hr == ERROR_NO_SUCH_USER
  {
    ErrorMessagesDiffer();
    FlutterError(DecimalString(hr), if hr == ERROR_NO_SUCH_USER then NO_USER_MESSAGE else PRODUCTS_ERROR_MESSAGE, "")
  }

  /** TrialTimeRemaining().count() / 10000: 100 ns ticks to whole milliseconds, truncated toward zero. */
  function TrialMilliseconds(remaining: TimeSpan): (ms: int64)
    ensures 0 <= remaining ==> 0 <= ms && ms * 10_000 <= remaining < ms * 10_000 + 10_000
    ensures remaining < 0 ==> ms <= 0 && ms * 10_000 - 10_000 < remaining <= ms * 10_000
  {
    TruncDivInt64(remaining, 10_000);
    TruncDiv(remaining, 10_000)
  }

  // ---------------------------------------------------------------- license

  predicate AddOnDatesValid(entries: seq<(string, StoreLicense)>)
  {
    forall i :: 0 <= i < |entries| ==> IsFileTimeRange(entries[i].1.expirationDate)
  }

  /** The license's dates are ones the formatter accepts. */
  predicate LicenseDatesValid(license: StoreAppLicense)
  {
    IsFileTimeRange(license.expirationDate) && AddOnDatesValid(license.addOnLicenses)
  }

  function AddOnFromStore(l: StoreLicense): AddOnLicenseInner
    requires IsFileTimeRange(l.expirationDate)
  {
    AddOnLicenseInner(l.inAppOfferToken, l.skuStoreId, DateTimeToISO8601(l.expirationDate))
  }

  /**
   * The add-on list: one entry per AddOnLicenses() element, in iteration
   * order, with that license's offer token and SKU and its formatted
   * expiration date.
   */
  function AddOnLicenseList(entries: seq<(string, StoreLicense)>): (list: seq<AddOnLicenseInner>)
    requires AddOnDatesValid(entries)
    ensures |list| == |entries|
    ensures forall i :: 0 <= i < |entries| ==>
              var l, a := entries[i].1, list[i];
              && a.inAppOfferToken == l.inAppOfferToken
              && a.skuStoreId == l.skuStoreId
              && a.expirationDate == DateTimeToISO8601(l.expirationDate)
  {
    ConvertValues(entries, AddOnFromStore)
  }

  /**
   * The reply of GetAppLicenseAsync: on success the license's fields copied,
   * the trial time in whole milliseconds, the expiration date formatted and
   * the add-on list; if the platform threw, the exception's error.
   */
  function AppLicenseReply(platform: Outcome<StoreAppLicense>): (r: ErrorOr<StoreAppLicenseInner>)
    requires platform.Returned? ==> LicenseDatesValid(platform.value)
    ensures r.Error? <==> platform.Threw?
    ensures platform.Threw? ==> r.error == ErrorFromException(platform.error)
    ensures platform.Returned? ==>
              var license, info := platform.value, r.value;
              && info.isActive == license.isActive && info.isTrial == license.isTrial
              && info.skuStoreId == license.skuStoreId && info.trialUniqueId == license.trialUniqueId
              && info.trialTimeRemaining == TrialMilliseconds(license.trialTimeRemaining)
              && info.expirationDate == DateTimeToISO8601(license.expirationDate)
              && info.addOnLicenses == AddOnLicenseList(license.addOnLicenses)
  {
    match platform
    case Threw(e) => Error(ErrorFromException(e))
    case Returned(license) =>
      Value(StoreAppLicenseInner(
        license.isActive,
        license.isTrial,
        license.skuStoreId,
        license.trialUniqueId,
        TrialMilliseconds(license.trialTimeRemaining),
        DateTimeToISO8601(license.expirationDate),
        AddOnLicenseList(license.addOnLicenses)))
  }

  /** GetAppLicenseAsync: `result` is called exactly once, with AppLicenseReply. */
  method GetAppLicenseAsync(platform: Outcome<StoreAppLicense>, result: ReplySink<StoreAppLicenseInner>)
    requires platform.Returned? ==> LicenseDatesValid(platform.value)
    modifies result
    ensures result.replies == old(result.replies) + [AppLicenseReply(platform)]
  {
    match platform
    case Threw(e) =>
      result.Reply(Error(ErrorFromException(e)));
    case Returned(license) =>
      var addonLicenseList := ConvertEach(license.addOnLicenses, AddOnFromStore);
      var licenseInfo := StoreAppLicenseInner(
        license.isActive,
        license.isTrial,
        license.skuStoreId,
        license.trialUniqueId,
        TrialMilliseconds(license.trialTimeRemaining),
        DateTimeToISO8601(license.expirationDate),
        addonLicenseList);
      result.Reply(Value(licenseInfo));
  }

  // --------------------------------------------------------------- products

  /** The kinds the product query asks for: just the requested kind, by its store API name. */
  function ProductKindQuery(kind: StoreProductKind): (kinds: seq<string>)
    ensures |kinds| == 1 && kinds[0] in PRODUCT_KIND_NAMES && ProductKindOf(kinds[0]) == kind
  {
    KindNameRoundTrip(kind);
    [ProductKindName(kind)]
  }

  predicate ProductDatesValid(entries: seq<(string, StoreProduct)>)
  {
    forall i :: 0 <= i < |entries| ==> IsFileTimeRange(entries[i].1.price.saleEndDate)
  }

  /** The product dates matter only when the query succeeded. */
  predicate QueryDatesValid(platform: Outcome<StoreProductQueryResult>)
  {
    platform.Returned? && platform.value.extendedError == S_OK ==> ProductDatesValid(platform.value.products)
  }

  function PriceFromStore(p: StorePrice): StorePriceInner
    requires IsFileTimeRange(p.saleEndDate)
  {
    StorePriceInner(p.currencyCode, p.isOnSale, DateTimeToISO8601(p.saleEndDate),
                    p.formattedBasePrice, p.formattedPrice, p.formattedRecurrencePrice)
  }

  function ProductFromStore(p: StoreProduct): StoreProductInner
    requires IsFileTimeRange(p.price.saleEndDate)
  {
    StoreProductInner(p.storeId, p.description, p.title, p.inAppOfferToken,
                      ProductKindOf(p.productKind), PriceFromStore(p.price))
  }

  /**
   * The product list: one entry per Products() element, in iteration order,
   * with the element's fields and price copied, its kind read back from its
   * kind name and its sale end date formatted.
   */
  function ProductList(entries: seq<(string, StoreProduct)>): (list: seq<StoreProductInner>)
    requires ProductDatesValid(entries)
    ensures |list| == |entries|
    ensures forall i :: 0 <= i < |entries| ==>
              var p, q := entries[i].1, list[i];
              && q.storeId == p.storeId && q.description == p.description
              && q.title == p.title && q.inAppOfferToken == p.inAppOfferToken
              && q.productKind == ProductKindOf(p.productKind)
              && q.price.currencyCode == p.price.currencyCode && q.price.isOnSale == p.price.isOnSale
              && q.price.saleEndDate == DateTimeToISO8601(p.price.saleEndDate)
              && q.price.formattedBasePrice == p.price.formattedBasePrice
              && q.price.formattedPrice == p.price.formattedPrice
              && q.price.formattedRecurrencePrice == p.price.formattedRecurrencePrice
  {
    ConvertValues(entries, ProductFromStore)
  }

  /** The code a failed query reports: the thrown hresult, or else the extended error. */
  function FailureCode(platform: Outcome<StoreProductQueryResult>): int32
  {
    match platform
    case Threw(e) => e.code
    case Returned(q) => q.extendedError
  }

  /**
   * The reply of GetAssociatedStoreProductsAsync (test-data build off): an
   * error exactly when the platform threw or reported a non-S_OK extended
   * error, carrying that code in decimal and empty details; otherwise the
   * product list.
   */
  function ProductsReply(platform: Outcome<StoreProductQueryResult>): (r: ErrorOr<AssociatedStoreProductsInner>)
    requires QueryDatesValid(platform)
    ensures r.Error? <==> platform.Threw? || platform.value.extendedError != S_OK
    ensures r.Error? ==> ParseDecimal(r.error.code) == Some(FailureCode(platform) as int) && r.error.details == ""
    ensures platform.Threw? ==> r.error.message == platform.error.message
    ensures platform.Returned? && r.Error? ==>
              (EndsWith(r.error.message, NO_USER_SUFFIX) <==> platform.value.extendedError == ERROR_NO_SUCH_USER)
    ensures r.Value? ==> r.value.products == ProductList(platform.value.products)
  {
    match platform
    case Threw(e) => Error(ErrorFromException(e))
    case Returned(q) =>
      if q.extendedError != S_OK then Error(ExtendedErrorReply(q.extendedError))
      else Value(AssociatedStoreProductsInner(ProductList(q.products)))
  }

  /**
   * GetAssociatedStoreProductsAsync: the store is asked for the one requested
   * kind, and `result` is called exactly once, with ProductsReply of its answer.
   */
  method GetAssociatedStoreProductsAsync(
    productKind: StoreProductKind,
    store: seq<string> -> Outcome<StoreProductQueryResult>,
    result: ReplySink<AssociatedStoreProductsInner>)
    requires QueryDatesValid(store(ProductKindQuery(productKind)))
    modifies result
    ensures result.replies == old(result.replies) + [ProductsReply(store(ProductKindQuery(productKind)))]
  {
    var productKinds := [ProductKindName(productKind)];
    var platform := store(productKinds);
    match platform
    case Threw(e) =>
      result.Reply(Error(ErrorFromException(e)));
    case Returned(productsResult) =>
      var hr := productsResult.extendedError;
      if hr != S_OK {
        result.Reply(Error(ExtendedErrorReply(hr)));
        return;
      }
      var productList := ConvertEach(productsResult.products, ProductFromStore);
      result.Reply(Value(AssociatedStoreProductsInner(productList)));
  }
}
