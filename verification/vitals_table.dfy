/** Two helpers of the vitals and sugar tables (modules/health_agent/app.py):
    reading a positive whole number out of an edited cell
    (`_coerce_pos_int`), and splitting the ticked rows into those that can
    still be sent to the doctor and those already sent. */
module VitalsTable {
  import opened Wrappers
  import opened Text
  import opened Decimal

  // ---------------------------------------------------------------------
  // `_coerce_pos_int`
  // ---------------------------------------------------------------------

  /** A value found in a table cell: `None`, a float NaN, a whole number,
      or text. */
  datatype CellValue = NoValue | NaN | Whole(n: int) | Text(t: string)

  /** Text reading "nan" in any case is not decimal text, so refusing it
      before `float(s)` only spares the `int(nan)` error. */
  lemma NanIsNotDecimal(s: string)
    requires Lower(s) == "nan"
    ensures TruncateDecimal(s).None?
  {
    assert LowerChar(s[0]) == 'n' && LowerChar(s[1]) == 'a';
    assert !IsDigit(s[0]) && s[0] != '+' && s[0] != '-' && s[0] != '.';
    var k := IndexOf(s, '.');
    assert k > 0;
    assert s[..k][0] == s[0];
  }

  /** The text path: strip, refuse blank and "nan" in any case, then
      `int(float(s))`, keeping only results above zero. */
  function PositiveFromText(t: string): (r: Option<int>)
    ensures r.Some? ==> r.value > 0
    ensures r.Some? ==> Strip(t) != "" && TruncateDecimal(Strip(t)) == r
    ensures var n := TruncateDecimal(Strip(t)); n.Some? && n.value > 0 ==> r == n
  {
    var s := Strip(t);
    if s == "" then None
    else if Lower(s) == "nan" then
      NanIsNotDecimal(s);
      None
    else match TruncateDecimal(s)
      case None => None
      case Some(n) => if n > 0 then Some(n) else None
  }

  /** `_coerce_pos_int(value)`: a whole number above zero, or `None`. Text
      gives the truncation of its stripped form when that is above zero,
      and nothing otherwise. */
  function CoercePosInt(v: CellValue): (r: Option<int>)
    ensures r.Some? ==> r.value > 0
    ensures v.NoValue? || v.NaN? ==> r.None?
    ensures v.Text? ==> r == (var n := TruncateDecimal(Strip(v.t)); if n.Some? && n.value > 0 then n else None)
  {
    match v
    case NoValue => None
    case NaN => None
    case Whole(n) => PositiveFromText(IntToString(n))
    case Text(t) => PositiveFromText(t)
  }

  /** The digits of a whole number, with or without a plus sign, read
      back as that number. */
  lemma SignedDigitsTruncate(plus: bool, n: nat)
    ensures TruncateDecimal((if plus then "+" else "") + NatToString(n)) == Some(n)
  {
    var d := NatToString(n);
    UnsignedTruncateDigits(d, "");
    NatToStringRoundTrip(n);
    if plus {
      TruncateWithSign('+', d);
      assert "+" + d == ['+'] + d;
    } else {
      TruncateUnsigned(d, "");
      assert "" + d == d;
    }
  }

  /** Stripping a padded, optionally signed number leaves the sign and the
      digits. */
  lemma StripPaddedNumber(lead: string, plus: bool, n: nat, trail: string)
    requires forall i :: 0 <= i < |lead| ==> IsSpace(lead[i])
    requires forall i :: 0 <= i < |trail| ==> IsSpace(trail[i])
    ensures Strip(lead + (if plus then "+" else "") + NatToString(n) + trail) == (if plus then "+" else "") + NatToString(n)
  {
    var d := NatToString(n);
    var x := (if plus then "+" else "") + d;
    assert x[|x| - 1] == d[|d| - 1];
    assert !IsSpace(x[0]) by {
      if !plus {
        assert x[0] == d[0];
      }
    }
    assert lead + (if plus then "+" else "") + d + trail == lead + x + trail;
    StripPadded(lead, x, trail);
  }

  /** Surrounding whitespace and a leading plus sign are accepted: " 12 "
      gives 12 and "+5" gives 5. */
  lemma CoercePaddedText(lead: string, plus: bool, n: nat, trail: string)
    requires forall i :: 0 <= i < |lead| ==> IsSpace(lead[i])
    requires forall i :: 0 <= i < |trail| ==> IsSpace(trail[i])
    requires n > 0
    ensures CoercePosInt(Text(lead + (if plus then "+" else "") + NatToString(n) + trail)) == Some(n)
  {
    StripPaddedNumber(lead, plus, n, trail);
    SignedDigitsTruncate(plus, n);
  }

  /** The text of a whole number is never "nan" in any case. */
  lemma IntTextIsNotNan(n: int)
    ensures Lower(IntToString(n)) != "nan"
  {
    var s := IntToString(n);
    if n < 0 {
      assert s[0] == '-';
    } else {
      assert IsDigit(NatToString(n)[0]);
    }
  }

  /** A whole number comes through unchanged when it is above zero and is
      refused otherwise. */
  lemma CoerceWhole(n: int)
    ensures CoercePosInt(Whole(n)) == if n > 0 then Some(n) else None
  {
    var s := IntToString(n);
    IntToStringNoSpace(n);
    StripNoSpace(s);
    IntTextIsNotNan(n);
    TruncateDropsFraction(n, "");
  }

  /** A number with a fraction written out holds no whitespace. */
  lemma DecimalTextNoSpace(n: int, frac: string)
    requires AllDigits(frac)
    ensures NoSpace(IntToString(n) + "." + frac)
  {
    var w := IntToString(n);
    var s := w + "." + frac;
    IntToStringNoSpace(n);
    forall i | 0 <= i < |s|
      ensures !IsSpace(s[i])
    {
      if i > |w| {
        assert s[i] == frac[i - |w| - 1];
      } else if i < |w| {
        assert s[i] == w[i];
      }
    }
  }

  /** Text starting with a digit or a minus sign is not "nan". */
  lemma NotNanByFirst(s: string)
    requires |s| > 0 && (IsDigit(s[0]) || s[0] == '-')
    ensures Lower(s) != "nan"
  {
    assert Lower(s)[0] == s[0];
  }

  /** Text holding a decimal number is truncated toward zero: "12.9"
      gives 12 and "0.5" gives nothing. */
  lemma CoerceDecimalText(n: int, frac: string)
    requires AllDigits(frac)
    ensures CoercePosInt(Text(IntToString(n) + "." + frac)) == if n > 0 then Some(n) else None
  {
    var w := IntToString(n);
    var s := w + "." + frac;
    DecimalTextNoSpace(n, frac);
    StripNoSpace(s);
    TruncateDropsFraction(n, frac);
    assert s[0] == w[0];
    assert IsDigit(w[0]) || w[0] == '-' by {
      if n >= 0 {
        assert w == NatToString(n);
      }
    }
    NotNanByFirst(s);
  }

  // ---------------------------------------------------------------------
  // The send-to-doctor split
  // ---------------------------------------------------------------------

  /** A row of the editable table: its id, the "Select" tick and the
      "Sent to Dr" flag (`None` when the flag is empty or the column is
      missing). */
  datatype EditorRow = EditorRow(id: int, selected: bool, sent: Option<bool>)

  predicate Eligible(r: EditorRow)
  {
    r.selected && r.sent != Some(true)
  }

  predicate AlreadySent(r: EditorRow)
  {
    r.selected && r.sent == Some(true)
  }

  /** The ids of the ticked rows not yet sent, in table order. */
  function EligibleIds(rows: seq<EditorRow>): (ids: seq<int>)
    ensures forall x :: x in ids <==> exists i :: 0 <= i < |rows| && Eligible(rows[i]) && rows[i].id == x
  {
    if |rows| == 0 then []
    else
      var rest := EligibleIds(rows[1..]);
      assert forall i :: 1 <= i < |rows| ==> rows[i] == rows[1..][i - 1];
      if Eligible(rows[0]) then [rows[0].id] + rest else rest
  }

  /** The ids of the ticked rows already sent, in table order. */
  function AlreadySentIds(rows: seq<EditorRow>): (ids: seq<int>)
    ensures forall x :: x in ids <==> exists i :: 0 <= i < |rows| && AlreadySent(rows[i]) && rows[i].id == x
  {
    if |rows| == 0 then []
    else
      var rest := AlreadySentIds(rows[1..]);
      assert forall i :: 1 <= i < |rows| ==> rows[i] == rows[1..][i - 1];
      if AlreadySent(rows[0]) then [rows[0].id] + rest else rest
  }

  /** How many rows are ticked. */
  function TickedCount(rows: seq<EditorRow>): nat
  {
    if |rows| == 0 then 0 else (if rows[0].selected then 1 else 0) + TickedCount(rows[1..])
  }

  /** Every ticked row lands in exactly one of the two lists. */
  lemma {:induction false} SplitCoversTicked(rows: seq<EditorRow>)
    ensures |EligibleIds(rows)| + |AlreadySentIds(rows)| == TickedCount(rows)
  {
    if |rows| > 0 {
      SplitCoversTicked(rows[1..]);
    }
  }

  /** "Send to doctor" is disabled exactly when every ticked row was
      already sent (in particular when nothing is ticked). */
  function SendDisabled(rows: seq<EditorRow>): (disabled: bool)
    ensures disabled <==> forall i :: 0 <= i < |rows| && rows[i].selected ==> rows[i].sent == Some(true)
  {
    var ids := EligibleIds(rows);
    assert |ids| > 0 ==> exists i :: 0 <= i < |rows| && Eligible(rows[i]) by {
      if |ids| > 0 {
        assert ids[0] in ids;
      }
    }
    assert (exists i :: 0 <= i < |rows| && Eligible(rows[i])) ==> |ids| > 0 by {
      if exists i :: 0 <= i < |rows| && Eligible(rows[i]) {
        var i :| 0 <= i < |rows| && Eligible(rows[i]);
        assert rows[i].id in ids;
      }
    }
    |ids| == 0
  }
}
