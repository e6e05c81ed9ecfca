/**
 * The records the plug-in sends back over the message channel (the
 * generated message classes), the error record, and the one-shot reply
 * callback each request receives.
 */
module Messages {

  datatype StoreProductKind = Application | Game | Consumable | UnmanagedConsumable | Durable

  datatype StoreSubscriptionBillingPeriodUnit = Minute | Hour | Day | Week | Month | Year

  datatype AddOnLicenseInner = AddOnLicenseInner(inAppOfferToken: string, skuStoreId: string, expirationDate: string)

  datatype StoreAppLicenseInner = StoreAppLicenseInner(
    isActive: bool,
    isTrial: bool,
    skuStoreId: string,
    trialUniqueId: string,
    trialTimeRemaining: int,
    expirationDate: string,
    addOnLicenses: seq<AddOnLicenseInner>)

  datatype StorePriceInner = StorePriceInner(
    currencyCode: string,
    isOnSale: bool,
    saleEndDate: string,
    formattedBasePrice: string,
    formattedPrice: string,
    formattedRecurrencePrice: string)

  datatype StoreProductInner = StoreProductInner(
    storeId: string,
    description: string,
    title: string,
    inAppOfferToken: string,
    productKind: StoreProductKind,
    price: StorePriceInner)

  datatype AssociatedStoreProductsInner = AssociatedStoreProductsInner(products: seq<StoreProductInner>)

  /** The error sent to the caller: a code, a message and details. */
  datatype FlutterError = FlutterError(code: string, message: string, details: string)

  /** What the reply callback receives: a value or an error. */
  datatype ErrorOr<T> = Value(value: T) | Error(error: FlutterError)

  /** The `result` callback of a request; it keeps every reply passed to it, in order. */
  class ReplySink<T> {
    var replies: seq<ErrorOr<T>>

    constructor ()
      ensures replies == []
    {
      replies := [];
    }

    method Reply(reply: ErrorOr<T>)
      modifies this
      ensures replies == old(replies) + [reply]
    {
      replies := replies + [reply];
    }
  }
}
