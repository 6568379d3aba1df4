/** Byte counts and their size labels: the unit choice of
    `CloudStorageApp.formatFileSize`, the unit multiplier with which
    `updateStorageStats` reads a label back, and the upload admission test
    of `validateFile`. Sizes are whole bytes; a label keeps its number in
    tenths, the precision `toFixed(1)` prints. */
module Sizes {
  import opened Strings

  /** 1024 to the power `k`. */
  function Pow1024(k: nat): (p: nat)
    ensures p >= 1
  {
    if k == 0 then 1 else 1024 * Pow1024(k - 1)
  }

  lemma {:induction false} Pow1024Monotone(a: nat, b: nat)
    requires a <= b
    ensures Pow1024(a) <= Pow1024(b)
    decreases b
  {
    if a < b {
      Pow1024Monotone(a, b - 1);
    }
  }

  /** The `sizes` table: unit `k` stands for 1024^k bytes. */
  const Units: seq<string> := ["B", "KB", "MB", "GB"]

  /** `Math.floor(Math.log(bytes) / Math.log(1024))`, computed exactly: the
      power of 1024 that `bytes` lies in. */
  function UnitIndex(bytes: nat): (i: nat)
    requires bytes >= 1
    ensures Pow1024(i) <= bytes < Pow1024(i + 1)
    decreases bytes
  {
    if bytes < 1024 then 0
    else
      var j := UnitIndex(bytes / 1024);
      assert Pow1024(j) * 1024 <= bytes / 1024 * 1024 <= bytes;
      assert bytes < (bytes / 1024 + 1) * 1024 <= Pow1024(j + 1) * 1024;
      1 + j
  }

  /** The index of a byte count is the unique `i` with 1024^i <= bytes < 1024^(i+1). */
  lemma UnitIndexUnique(bytes: nat, i: nat)
    requires Pow1024(i) <= bytes < Pow1024(i + 1)
    ensures UnitIndex(bytes) == i
  {
    var j := UnitIndex(bytes);
    if j < i {
      Pow1024Monotone(j + 1, i);
    } else if i < j {
      Pow1024Monotone(i + 1, j);
    }
  }

  /** A size as the application prints it: `tenths / 10` followed by a unit
      name, "2.3 MB" being SizeLabel(23, "MB"). */
  datatype SizeLabel = SizeLabel(tenths: nat, unit: string)

  /** `x / m` rounded to tenths, half up, for `x` in tenths of a byte and a
      power of two `m`: what `(x / 10 / m).toFixed(1)` prints. Dividing by a
      power of two is exact in binary floating point, so the rounding of
      `toFixed` is the only one. */
  function RoundTenths(x: nat, m: nat): nat
    requires m > 0
  {
    (2 * x + m) / (2 * m)
  }

  /** The rounded number times `m` is within half of `m` of `x`. */
  lemma RoundTenthsBounds(x: nat, m: nat)
    requires m > 0
    ensures var n := RoundTenths(x, m);
      2 * (n * m) <= 2 * x + m < 2 * (n * m) + 2 * m
  {
    var n := RoundTenths(x, m);
    DivisionBounds(2 * x + m, 2 * m);
    assert n * (2 * m) == 2 * (n * m);
  }

  /** `formatFileSize` applied to `t / 10` bytes, the form in which both a
      file's size and the summed total of `updateStorageStats` reach it, with
      the unit index held inside the `sizes` table (see
      `FormatFileSizeAsWritten`). Below one byte the logarithm is negative,
      the index is -1, and the number is scaled up by 1024 with the unit
      `sizes[-1]`, printed "undefined"; the application's own labels never add
      up to such a total. */
  function FormatTenthBytes(t: nat): SizeLabel
  {
    if t == 0 then SizeLabel(0, "B")
    else if t < 10 then SizeLabel(1024 * t, "undefined")
    else
      var i := if UnitIndex(t / 10) < |Units| then UnitIndex(t / 10) else |Units| - 1;
      SizeLabel(RoundTenths(t, Pow1024(i)), Units[i])
  }

  /** `formatFileSize(bytes)` for the whole byte count of an upload. */
  function FormatFileSize(bytes: nat): SizeLabel
  {
    FormatTenthBytes(10 * bytes)
  }

  /** Below 1024^4 bytes the label uses the unit the byte count lies in, and
      its number is at least 1.0 and at most 1024 (1048575 bytes round up to
      "1024 KB"). */
  lemma FormatFileSizeUnit(bytes: nat)
    requires 0 < bytes < Pow1024(4)
    ensures var shown := FormatFileSize(bytes);
      && UnitIndex(bytes) < |Units|
      && shown.unit == Units[UnitIndex(bytes)] && 10 <= shown.tenths <= 10240
  {
    var i := UnitIndex(bytes);
    if i >= 4 {
      Pow1024Monotone(4, i);
    }
    assert (10 * bytes) / 10 == bytes;
    var m := Pow1024(i);
    assert m * 1024 == Pow1024(i + 1);
    assert 10 * (2 * m) <= 2 * (10 * bytes) + m < 10241 * (2 * m);
    DivideBetween(2 * (10 * bytes) + m, 2 * m, 10, 10241);
  }

  /** Dividing by `m` keeps a number between the matching bounds. */
  lemma DivideBetween(x: nat, m: nat, lo: nat, hi: nat)
    requires m > 0 && lo * m <= x < hi * m
    ensures lo <= x / m < hi
  {
    var q := x / m;
    assert x == q * m + x % m;
    if q < lo {
      MultiplyMonotone(m, q + 1, lo);
    }
    if q >= hi {
      MultiplyMonotone(m, hi, q);
    }
  }

  /** The quotient times the divisor is within one divisor below the number. */
  lemma DivisionBounds(x: nat, m: nat)
    requires m > 0
    ensures (x / m) * m <= x < (x / m) * m + m
  {
    assert x == (x / m) * m + x % m;
  }

  lemma MultiplyMonotone(m: nat, a: nat, b: nat)
    requires a <= b
    ensures a * m <= b * m
  {
  }

  /** The unit multiplier of `updateStorageStats`: 1024^k for "KB", "MB" and
      "GB", and the number left unscaled for "B" or any other unit. */
  function UnitMultiplier(unit: string): nat
  {
    if unit == "KB" then 1024
    else if unit == "MB" then 1024 * 1024
    else if unit == "GB" then 1024 * 1024 * 1024
    else 1
  }

  /** The multiplier undoes the `sizes` table: unit `k` is read back as
      1024^k, and a unit outside the table as 1. */
  lemma UnitMultiplierInvertsTable(unit: string)
    ensures forall k :: 0 <= k < |Units| && Units[k] == unit ==> UnitMultiplier(unit) == Pow1024(k)
    ensures unit !in Units ==> UnitMultiplier(unit) == 1
  {
    assert Pow1024(1) == 1024;
    assert Pow1024(2) == 1024 * 1024;
    assert Pow1024(3) == 1024 * 1024 * 1024;
  }

  /** `parseFloat(size) * multiplier`, in tenths of a byte so that it stays
      exact. */
  function ParseTenthBytes(shown: SizeLabel): nat
  {
    shown.tenths * UnitMultiplier(shown.unit)
  }

  /** From one byte on, reading a label back gives the amount it was made
      from to within half a unit of its last digit, and that unit is at most
      a tenth of the amount: the label is off by at most 5%. */
  lemma FormatTenthBytesRoundTrip(t: nat)
    requires t >= 10
    ensures var shown := FormatTenthBytes(t);
      var p := ParseTenthBytes(shown);
      var m := UnitMultiplier(shown.unit);
      && 2 * p <= 2 * t + m && 2 * t < 2 * p + m
      && 10 * m <= t
  {
    var shown := FormatTenthBytes(t);
    UnitMultiplierInvertsTable(shown.unit);
    var i := if UnitIndex(t / 10) < |Units| then UnitIndex(t / 10) else |Units| - 1;
    Pow1024Monotone(i, UnitIndex(t / 10));
    var m := Pow1024(i);
    assert shown == SizeLabel(RoundTenths(t, m), Units[i]);
    assert UnitMultiplier(shown.unit) == m;
    RoundTenthsBounds(t, m);
    assert 10 * m <= 10 * (t / 10) <= t;
  }

  /** Reading a file's label back gives its size to within half a unit of
      the last digit, and to within 5% of the size. */
  lemma FormatParseRoundTrip(bytes: nat)
    ensures var shown := FormatFileSize(bytes);
      var p := ParseTenthBytes(shown);
      var m := UnitMultiplier(shown.unit);
      && 2 * p <= 20 * bytes + m && 20 * bytes < 2 * p + m
      && (bytes > 0 ==> m <= bytes && 2 * p <= 21 * bytes && 19 * bytes < 2 * p)
  {
    if bytes > 0 {
      FormatTenthBytesRoundTrip(10 * bytes);
    }
  }

  // ---------------------------------------------------------------------
  // The function as written indexes `sizes` with the unbounded index, so at
  // 1024^4 bytes and above the unit is `sizes[4]`, i.e. `undefined`, which
  // the string concatenation prints as "undefined".

  function FormatFileSizeAsWritten(bytes: nat): SizeLabel
  {
    if bytes == 0 then SizeLabel(0, "B")
    else
      var i := UnitIndex(bytes);
      SizeLabel(RoundTenths(10 * bytes, Pow1024(i)), if i < |Units| then Units[i] else "undefined")
  }

  /** Below 1024^4 bytes the written function and the bounded one agree. */
  lemma AsWrittenAgreesBelowTebibyte(bytes: nat)
    requires bytes < Pow1024(4)
    ensures FormatFileSizeAsWritten(bytes) == FormatFileSize(bytes)
  {
    assert (10 * bytes) / 10 == bytes;
    if bytes > 0 && UnitIndex(bytes) >= 4 {
      Pow1024Monotone(4, UnitIndex(bytes));
    }
  }

  /** From 1024^4 bytes on, the written label's unit is "undefined", which
      the multiplier leaves unscaled: the size is read back about 1024^4
      times too small (at most 1.05 times the size divided by 1024^4). */
  lemma AsWrittenLosesScale(bytes: nat)
    requires bytes >= Pow1024(4)
    ensures FormatFileSizeAsWritten(bytes).unit == "undefined"
    ensures 2 * ParseTenthBytes(FormatFileSizeAsWritten(bytes)) * Pow1024(4) <= 21 * bytes
  {
    var i := UnitIndex(bytes);
    assert i >= 4 by {
      if i < 4 {
        Pow1024Monotone(i + 1, 4);
      }
    }
    var m := Pow1024(i);
    var n := RoundTenths(10 * bytes, m);
    assert FormatFileSizeAsWritten(bytes) == SizeLabel(n, "undefined");
    assert ParseTenthBytes(SizeLabel(n, "undefined")) == n;
    var big := Pow1024(4);
    RoundTenthsBounds(10 * bytes, m);
    assert 2 * (n * m) <= 20 * bytes + m <= 21 * bytes;
    Pow1024Monotone(4, i);
    MultiplyMonotone(n, big, m);
    assert 2 * n * big == 2 * (big * n) <= 2 * (m * n) == 2 * (n * m);
  }

  /** One tebibyte is labelled "1 undefined" and read back as one byte. */
  lemma TebibyteCounterexample()
    ensures FormatFileSizeAsWritten(Pow1024(4)) == SizeLabel(10, "undefined")
    ensures ParseTenthBytes(FormatFileSizeAsWritten(Pow1024(4))) == 10
  {
    var m := Pow1024(4);
    UnitIndexUnique(m, 4);
    DivideBetween(2 * (10 * m) + m, 2 * m, 10, 11);
  }

  // ---------------------------------------------------------------------
  // Upload admission.

  /** `validateFile`: the limit is `parseInt(maxFileSize) * 1024 * 1024`
      bytes, and a file is refused exactly when its size exceeds it. When the
      setting has no leading number `parseInt` gives NaN, no comparison with
      NaN holds, and every file is admitted. */
  function ValidateFile(size: nat, maxFileSize: string): bool
  {
    match ParseInt(maxFileSize)
    case None => true
    case Some(mb) => !(size > mb * 1024 * 1024)
  }

  /** With the limit stored as the settings form writes it, "<n> MB", a file
      is admitted exactly when it has at most n MiB. */
  lemma ValidateFileAgainstSetting(size: nat, mb: nat)
    ensures ValidateFile(size, DecimalText(mb) + " MB") <==> size <= mb * 1024 * 1024
  {
    ParseIntOfNumeral(mb, " MB");
  }

  /** The default limit "100 MB" admits a file exactly when it has at most
      100 MiB: 150 MiB is refused, 50 MiB admitted. */
  lemma DefaultLimit(size: nat)
    ensures ValidateFile(size, "100 MB") <==> size <= 100 * 1048576
  {
    assert DecimalText(1) == "1";
    assert DecimalText(10) == "1" + "0";
    assert DecimalText(100) == "100";
    assert DecimalText(100) + " MB" == "100 MB";
    ParseIntOfNumeral(100, " MB");
  }

  /** `parseInt(" MB")` is NaN: after the space comes a letter. */
  lemma ParseBlankLimit()
    ensures ParseInt(" MB") == None
  {
    var s, r := " MB", "MB";
    assert IsJsWhitespace(s[0]) && s[1..] == r;
    assert !IsJsWhitespace(r[0]);
    assert TrimStart(r) == r;
    assert TrimStart(s) == r;
    assert DigitValue(r[0]) == Some(22);
  }

  /** `parseInt("-1 MB")` is -1. */
  lemma ParseNegativeLimit()
    ensures ParseInt("-1 MB") == Some(-1)
  {
    var s := "-1 MB";
    assert !IsJsWhitespace(s[0]);
    assert TrimStart(s) == s;
    var u := s[1..];
    assert u == "1 MB" && u[1..] == " MB";
    assert u[0] != '0' && IsDigitIn(u[0], 10) && !IsDigitIn(' ', 10);
    assert ReadDigits(" MB", 10, 1) == 1;
    assert ReadDigits(u, 10, 0) == 1;
  }

  /** An empty limit field (stored as " MB") admits every file; a negative
      one refuses every file, even an empty one. */
  lemma LimitEdgeCases(size: nat)
    ensures ValidateFile(size, " MB")
    ensures !ValidateFile(size, "-1 MB")
  {
    ParseBlankLimit();
    ParseNegativeLimit();
  }
}
