/**
 * What the Windows.Services.Store calls hand back, as plain values: the
 * platform is not called, its answers are inputs. Strings are opaque and
 * copied through.
 */
module WinRT {
  import opened Numerics

  /** Windows.Foundation.DateTime: signed 64-bit count of 100 ns ticks since 1601-01-01 00:00 UTC. */
  type DateTime = int64

  /** Windows.Foundation.TimeSpan: signed 64-bit count of 100 ns ticks. */
  type TimeSpan = int64

  const S_OK := 0
  /** The Win32 code the product query's extended error is compared with. */
  const ERROR_NO_SUCH_USER := 1317

  /** StoreDurationUnit values, as the platform numbers them. */
  const DURATION_MINUTE := 0
  const DURATION_HOUR := 1
  const DURATION_DAY := 2
  const DURATION_WEEK := 3
  const DURATION_MONTH := 4
  const DURATION_YEAR := 5

  /** A thrown winrt::hresult_error: its 32-bit code and its message. */
  datatype HResultError = HResultError(code: int32, message: string)

  /** How a platform call ended: with a value, or by throwing. */
  datatype Outcome<T> = Returned(value: T) | Threw(error: HResultError)

  datatype StoreLicense = StoreLicense(inAppOfferToken: string, skuStoreId: string, expirationDate: DateTime)

  /** StoreAppLicense; AddOnLicenses is a map view, given as its (key, value) pairs in iteration order. */
  datatype StoreAppLicense = StoreAppLicense(
    isActive: bool,
    isTrial: bool,
    skuStoreId: string,
    trialUniqueId: string,
    trialTimeRemaining: TimeSpan,
    expirationDate: DateTime,
    addOnLicenses: seq<(string, StoreLicense)>)

  datatype StorePrice = StorePrice(
    currencyCode: string,
    isOnSale: bool,
    saleEndDate: DateTime,
    formattedBasePrice: string,
    formattedPrice: string,
    formattedRecurrencePrice: string)

  datatype StoreProduct = StoreProduct(
    storeId: string,
    description: string,
    title: string,
    inAppOfferToken: string,
    productKind: string,
    price: StorePrice)

  /** StoreProductQueryResult; Products is a map view, given as its (key, value) pairs in iteration order. */
  datatype StoreProductQueryResult = StoreProductQueryResult(
    extendedError: int32,
    products: seq<(string, StoreProduct)>)
}
