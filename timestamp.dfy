/**
 * The text both `dateTimeToISO8601` variants print from a SYSTEMTIME:
 * `sprintf_s(buffer, "%04d-%02d-%02dT%02d:%02d:%02dZ", ...)`, the complete
 * extended UTC form of ISO 8601 (the profile of section 5.6 of RFC 3339),
 * whole seconds only. Parse reads that form back.
 */
module Timestamp {
  import opened Wrappers
  import opened Numerics
  import opened Calendar

  /** The fixed separator positions of `YYYY-MM-DDTHH:MM:SSZ`. */
  predicate IsSeparatorIndex(i: int)
  {
    i == 4 || i == 7 || i == 10 || i == 13 || i == 16 || i == 19
  }

  /** `YYYY-MM-DDTHH:MM:SSZ`: twenty characters, digits everywhere but the separators. */
  predicate IsIso8601Utc(s: string)
  {
    && |s| == 20
    && s[4] == '-' && s[7] == '-' && s[10] == 'T' && s[13] == ':' && s[16] == ':' && s[19] == 'Z'
    && forall i :: 0 <= i < 20 && !IsSeparatorIndex(i) ==> IsDigit(s[i])
  }

  /**
   * The formatting call shared by both formatters: every field zero-padded,
   * the year to four digits. For a year of at most four digits the text has
   * the fixed shape and reads back as the same date and time; the
   * milliseconds are not printed.
   */
  function Format(st: SystemTime): (text: string)
    requires ValidSystemTime(st)
    ensures st.year <= 9999 ==> IsIso8601Utc(text) && Parse(text) == Some(st.(milliseconds := 0))
  {
    var y, mo, d := PadDecimal(st.year, 4), PadDecimal(st.month, 2), PadDecimal(st.day, 2);
    var h, mi, se := PadDecimal(st.hour, 2), PadDecimal(st.minute, 2), PadDecimal(st.second, 2);
    assert Pow10(4) == 10000 && Pow10(2) == 100;
    var text := y + "-" + mo + "-" + d + "T" + h + ":" + mi + ":" + se + "Z";
    if st.year <= 9999 then
      FieldsText(y, mo, d, h, mi, se);
      text
    else
      text
  }

  /** Reads `YYYY-MM-DDTHH:MM:SSZ` back into a SYSTEMTIME with zero milliseconds. */
  function Parse(s: string): Option<SystemTime>
  {
    if IsIso8601Utc(s) then
      assert AllDigits(s[0..4]) && AllDigits(s[5..7]) && AllDigits(s[8..10]);
      assert AllDigits(s[11..13]) && AllDigits(s[14..16]) && AllDigits(s[17..19]);
      Some(SystemTime(ParseNat(s[0..4]), ParseNat(s[5..7]), ParseNat(s[8..10]),
                      ParseNat(s[11..13]), ParseNat(s[14..16]), ParseNat(s[17..19]), 0))
    else None
  }

  /** Where each field lands in the formatted text, for fields of the widths the year-9999 bound gives. */
  lemma Layout(y: string, mo: string, d: string, h: string, mi: string, se: string)
    requires |y| == 4 && |mo| == 2 && |d| == 2 && |h| == 2 && |mi| == 2 && |se| == 2
    ensures var s := y + "-" + mo + "-" + d + "T" + h + ":" + mi + ":" + se + "Z";
            && |s| == 20
            && s[4] == '-' && s[7] == '-' && s[10] == 'T' && s[13] == ':' && s[16] == ':' && s[19] == 'Z'
            && s[0..4] == y && s[5..7] == mo && s[8..10] == d
            && s[11..13] == h && s[14..16] == mi && s[17..19] == se
  {
    var s := y + "-" + mo + "-" + d + "T" + h + ":" + mi + ":" + se + "Z";
    assert s[0..4] == y by { assert forall i :: 0 <= i < 4 ==> s[i] == y[i]; }
    assert s[5..7] == mo by { assert s[5] == mo[0] && s[6] == mo[1]; }
    assert s[8..10] == d by { assert s[8] == d[0] && s[9] == d[1]; }
    assert s[11..13] == h by { assert s[11] == h[0] && s[12] == h[1]; }
    assert s[14..16] == mi by { assert s[14] == mi[0] && s[15] == mi[1]; }
    assert s[17..19] == se by { assert s[17] == se[0] && s[18] == se[1]; }
  }

  /** Digit fields of those widths, joined by the separators, make text of the fixed shape. */
  lemma FieldsShape(y: string, mo: string, d: string, h: string, mi: string, se: string)
    requires |y| == 4 && |mo| == 2 && |d| == 2 && |h| == 2 && |mi| == 2 && |se| == 2
    requires AllDigits(y) && AllDigits(mo) && AllDigits(d) && AllDigits(h) && AllDigits(mi) && AllDigits(se)
    ensures IsIso8601Utc(y + "-" + mo + "-" + d + "T" + h + ":" + mi + ":" + se + "Z")
  {
    var s := y + "-" + mo + "-" + d + "T" + h + ":" + mi + ":" + se + "Z";
    Layout(y, mo, d, h, mi, se);
    forall i | 0 <= i < 20 && !IsSeparatorIndex(i)
      ensures IsDigit(s[i])
    {
      if i < 4 { assert s[i] == s[0..4][i]; }
      else if i < 7 { assert s[i] == s[5..7][i - 5]; }
      else if i < 10 { assert s[i] == s[8..10][i - 8]; }
      else if i < 13 { assert s[i] == s[11..13][i - 11]; }
      else if i < 16 { assert s[i] == s[14..16][i - 14]; }
      else { assert s[i] == s[17..19][i - 17]; }
    }
  }

  /** Such text reads back field by field. */
  lemma FieldsText(y: string, mo: string, d: string, h: string, mi: string, se: string)
    requires |y| == 4 && |mo| == 2 && |d| == 2 && |h| == 2 && |mi| == 2 && |se| == 2
    requires AllDigits(y) && AllDigits(mo) && AllDigits(d) && AllDigits(h) && AllDigits(mi) && AllDigits(se)
    ensures var s := y + "-" + mo + "-" + d + "T" + h + ":" + mi + ":" + se + "Z";
            && IsIso8601Utc(s)
            && Parse(s) == Some(SystemTime(ParseNat(y), ParseNat(mo), ParseNat(d), ParseNat(h), ParseNat(mi), ParseNat(se), 0))
  {
    var s := y + "-" + mo + "-" + d + "T" + h + ":" + mi + ":" + se + "Z";
    FieldsShape(y, mo, d, h, mi, se);
    Layout(y, mo, d, h, mi, se);
  }
}
