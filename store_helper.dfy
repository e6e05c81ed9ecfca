/**
 * windows_store_helper.cpp: the product-kind name table and its inverse,
 * the timestamp formatter built on winrt::clock::to_file_time, and the
 * billing-period unit mapping.
 */
module StoreHelper {
  import opened Wrappers
  import opened Numerics
  import opened Calendar
  import opened Timestamp
  import opened Messages
  import opened WinRT

  /** The five names the store API uses for product kinds, case-sensitive. */
  const PRODUCT_KIND_NAMES: set<string> := {"Application", "Game", "Consumable", "UnmanagedConsumable", "Durable"}

  /** getProductKindName: the store API's name for a product kind. */
  function ProductKindName(kind: StoreProductKind): (name: string)
    ensures name in PRODUCT_KIND_NAMES
  {
    match kind
    case Application => "Application"
    case Game => "Game"
    case Consumable => "Consumable"
    case UnmanagedConsumable => "UnmanagedConsumable"
    case Durable => "Durable"
  }

  /**
   * getProductKind: the product kind a store API name stands for; a string
   * that is none of the five names becomes Durable.
   */
  function ProductKindOf(name: string): (kind: StoreProductKind)
    ensures name in PRODUCT_KIND_NAMES ==> ProductKindName(kind) == name
    ensures name !in PRODUCT_KIND_NAMES ==> kind == Durable
  {
    if name == "Application" then Application
    else if name == "Game" then Game
    else if name == "Consumable" then Consumable
    else if name == "UnmanagedConsumable" then UnmanagedConsumable
    else Durable
  }

  /** kind -> name -> kind is the identity. */
  lemma KindNameRoundTrip(kind: StoreProductKind)
    ensures ProductKindOf(ProductKindName(kind)) == kind
  {
  }

  /** Different kinds have different names. */
  lemma KindNameInjective(k1: StoreProductKind, k2: StoreProductKind)
    ensures ProductKindName(k1) == ProductKindName(k2) <==> k1 == k2
  {
    KindNameRoundTrip(k1);
    KindNameRoundTrip(k2);
  }

  /** name -> kind -> name gives the input back exactly when it is one of the five names, and "Durable" otherwise. */
  lemma NameKindRoundTrip(name: string)
    ensures ProductKindName(ProductKindOf(name)) == name <==> name in PRODUCT_KIND_NAMES
    ensures name !in PRODUCT_KIND_NAMES ==> ProductKindName(ProductKindOf(name)) == "Durable"
  {
  }

  /** The StoreDurationUnit value with the same name as a billing-period unit. */
  function DurationUnitOf(unit: StoreSubscriptionBillingPeriodUnit): int32
  {
    match unit
    case Minute => DURATION_MINUTE
    case Hour => DURATION_HOUR
    case Day => DURATION_DAY
    case Week => DURATION_WEEK
    case Month => DURATION_MONTH
    case Year => DURATION_YEAR
  }

  /**
   * getSubscriptionBillingPeriodUnit: each named StoreDurationUnit becomes the
   * unit of the same name; any other value becomes Month (after a warning on
   * the error stream, not modelled).
   */
  function SubscriptionBillingPeriodUnit(unit: int32): (r: StoreSubscriptionBillingPeriodUnit)
    ensures !(DURATION_MINUTE <= unit <= DURATION_YEAR) ==> r == Month
    ensures DURATION_MINUTE <= unit <= DURATION_YEAR ==> DurationUnitOf(r) == unit
  {
    if unit == DURATION_MINUTE then Minute
    else if unit == DURATION_HOUR then Hour
    else if unit == DURATION_DAY then Day
    else if unit == DURATION_WEEK then Week
    else if unit == DURATION_MONTH then Month
    else if unit == DURATION_YEAR then Year
    else Month
  }

  /** Every billing-period unit comes from the duration unit of the same name, so the mapping is injective on named units. */
  lemma BillingPeriodUnitRoundTrip(unit: StoreSubscriptionBillingPeriodUnit)
    ensures SubscriptionBillingPeriodUnit(DurationUnitOf(unit)) == unit
  {
  }

  /** The DateTimes whose FILETIME FileTimeToSystemTime accepts: the non-negative ones. */
  predicate IsFileTimeRange(dt: DateTime)
  {
    0 <= dt
  }

  /** winrt::clock::to_file_time: the tick count reinterpreted as an unsigned 64-bit value, in two words. */
  function ToFileTime(dt: DateTime): (ft: FileTime)
    ensures ft.Valid()
    ensures IsConvertible(ft) <==> IsFileTimeRange(dt)
    ensures IsFileTimeRange(dt) ==> ft.Ticks() == dt
  {
    FileTimeOfTicks(if dt < 0 then dt + TWO_POW_64 else dt)
  }

  /**
   * dateTimeToISO8601: the UTC calendar date and time of day of a DateTime, to
   * the second. Before year 10000 the text is `YYYY-MM-DDTHH:MM:SSZ` and reads
   * back as a valid date and time that stands for exactly the DateTime rounded
   * down to a whole second.
   */
  function DateTimeToISO8601(dt: DateTime): (text: string)
    requires IsFileTimeRange(dt)
    ensures dt < YEAR_10000_TICKS ==>
              && IsIso8601Utc(text)
              && var p := Parse(text);
                 && p.Some? && ValidSystemTime(p.value)
                 && SystemTimeToTicks(p.value) == dt / TICKS_PER_SECOND * TICKS_PER_SECOND
  {
    var ft := ToFileTime(dt);
    WholeSecondOfSystemTime(ft);
    if dt < YEAR_10000_TICKS then
      FourDigitYear(dt);
      Format(FileTimeToSystemTime(ft))
    else
      Format(FileTimeToSystemTime(ft))
  }

  /** Ticks from 1601-01-01 to 10000-01-01: below this the year has four digits. */
  const YEAR_10000_TICKS := 3_067_671 * SECONDS_PER_DAY * TICKS_PER_SECOND

  /** A SYSTEMTIME standing for fewer ticks than 10000-01-01 has a year of at most four digits. */
  lemma YearBelow10000(st: SystemTime)
    requires ValidSystemTime(st) && SystemTimeToTicks(st) < YEAR_10000_TICKS
    ensures st.year <= 9999
  {
    TicksAtLeastYearStart(st);
    assert DaysBeforeYear(10000) == 3_067_671;
    if st.year > 10000 {
      DaysBeforeYearGrows(10000, st.year);
    }
  }

  lemma FourDigitYear(dt: DateTime)
    requires IsFileTimeRange(dt) && dt < YEAR_10000_TICKS
    ensures FileTimeToSystemTime(ToFileTime(dt)).year <= 9999
  {
    YearBelow10000(FileTimeToSystemTime(ToFileTime(dt)));
  }

  /** Two DateTimes in the same whole second print the same. */
  lemma SameSecondSameText(dt1: DateTime, dt2: DateTime)
    requires IsFileTimeRange(dt1) && IsFileTimeRange(dt2)
    requires dt1 / TICKS_PER_SECOND == dt2 / TICKS_PER_SECOND
    ensures DateTimeToISO8601(dt1) == DateTimeToISO8601(dt2)
  {
    SameSecondSameSystemTime(ToFileTime(dt1), ToFileTime(dt2));
  }

  /** Before year 10000 two DateTimes print the same exactly when they fall in the same whole second. */
  lemma SameTextIffSameSecond(dt1: DateTime, dt2: DateTime)
    requires IsFileTimeRange(dt1) && dt1 < YEAR_10000_TICKS
    requires IsFileTimeRange(dt2) && dt2 < YEAR_10000_TICKS
    ensures DateTimeToISO8601(dt1) == DateTimeToISO8601(dt2) <==> dt1 / TICKS_PER_SECOND == dt2 / TICKS_PER_SECOND
  {
    if dt1 / TICKS_PER_SECOND == dt2 / TICKS_PER_SECOND {
      SameSecondSameText(dt1, dt2);
    }
  }
}
