/**
 * How the Plivo verification script classifies the answer URL of each rented
 * number, and how it marks the number the receptionist is configured to use.
 */
module VerifyPlivo {
  import opened Options
  import opened Text

  /** A field of a number listing entry: absent, present but None, or a string. */
  datatype Field = Missing | Null | Present(text: string)

  /** The two fields read from a number listing entry. */
  datatype NumberEntry = NumberEntry(number: Field, answerUrl: Field)

  /** A Python value that is a string or None: a field's value, or an environment variable. */
  datatype PyValue = PyNone | PyStr(s: string)

  const RailwayStatus := "RAILWAY"
  const NgrokStatus := "NGROK (update needed!)"
  const OtherStatus := "OTHER"
  const ConfiguredMarker := ">>>"
  const PlainMarker := "   "

  /** `getattr(num, name, num.get(name, default))`: the field's value, or `default` when the entry lacks it. */
  function FieldValue(field: Field, default: string): (v: PyValue)
    ensures v == PyNone <==> field.Null?
    ensures v == PyStr(default) <==> field.Missing? || field == Present(default)
    ensures v.PyStr? ==> field == Present(v.s) || field.Missing?
  {
    match field
    case Missing => PyStr(default)
    case Null => PyNone
    case Present(text) => PyStr(text)
  }

  /** The number of an entry, "?" when it has none. */
  function NumberOf(entry: NumberEntry): (n: PyValue)
    ensures n == PyNone <==> entry.number.Null?
    ensures entry.number.Missing? ==> n == PyStr("?")
    ensures entry.number.Present? ==> n == PyStr(entry.number.text)
  {
    FieldValue(entry.number, "?")
  }

  /** The answer URL of an entry, "Not set" when it has none. */
  function AnswerUrlOf(entry: NumberEntry): (url: PyValue)
    ensures url == PyNone <==> entry.answerUrl.Null?
    ensures entry.answerUrl.Missing? ==> url == PyStr("Not set")
    ensures entry.answerUrl.Present? ==> url == PyStr(entry.answerUrl.text)
  {
    FieldValue(entry.answerUrl, "Not set")
  }

  /** `str(v)`: a string is itself, None is written "None". */
  function Str(v: PyValue): (text: string)
    ensures text == "None" <==> v == PyNone || v == PyStr("None")
    ensures text != "None" ==> v == PyStr(text)
  {
    match v
    case PyNone => "None"
    case PyStr(s) => s
  }

  /**
   * Reading a field loses one distinction: an absent field and a field holding
   * the default read the same; every other pair of fields reads differently.
   */
  lemma FieldValueCollapses(f1: Field, f2: Field, default: string)
    ensures FieldValue(f1, default) == FieldValue(f2, default) <==>
      f1 == f2 || (f1.Missing? && f2 == Present(default)) || (f2.Missing? && f1 == Present(default))
  {
  }

  /** `str` loses one distinction: None and the string "None" are written alike. */
  lemma StrCollapses(v1: PyValue, v2: PyValue)
    ensures Str(v1) == Str(v2) <==>
      v1 == v2 || (v1.PyNone? && v2 == PyStr("None")) || (v2.PyNone? && v1 == PyStr("None"))
  {
  }

  /** `is_railway`: "railway" in the lowercased URL, or the Railway domain suffix in the URL itself. */
  predicate IsRailway(url: string) {
    Contains(Lower(url), "railway") || Contains(url, ".up.railway.app")
  }

  /** `is_ngrok`: "ngrok" in the lowercased URL. */
  predicate IsNgrok(url: string) {
    Contains(Lower(url), "ngrok")
  }

  /** The status label, Railway taking precedence over ngrok. */
  function Status(url: string): (status: string)
    ensures status == RailwayStatus <==> IsRailway(url)
    ensures status == NgrokStatus <==> !IsRailway(url) && IsNgrok(url)
    ensures status == OtherStatus <==> !IsRailway(url) && !IsNgrok(url)
  {
    if IsRailway(url) then RailwayStatus else if IsNgrok(url) then NgrokStatus else OtherStatus
  }

  /** The marker printed before a number: ">>>" when it equals the configured number, three spaces otherwise. */
  function Marker(number: PyValue, phoneNumber: PyValue): (marker: string)
    ensures marker == ConfiguredMarker <==> number == phoneNumber
    ensures marker == PlainMarker <==> number != phoneNumber
  {
    if number == phoneNumber then ConfiguredMarker else PlainMarker
  }

  /** The status of an entry: the classification of its answer URL as `str` writes it. */
  function EntryStatus(entry: NumberEntry): (status: string)
    ensures status == RailwayStatus <==> IsRailway(Str(AnswerUrlOf(entry)))
    ensures status == OtherStatus <==> !IsRailway(Str(AnswerUrlOf(entry))) && !IsNgrok(Str(AnswerUrlOf(entry)))
  {
    Status(Str(AnswerUrlOf(entry)))
  }

  /** The domain-suffix test never classifies a URL the lowercase test misses. */
  lemma RailwaySuffixRedundant(url: string)
    ensures IsRailway(url) <==> Contains(Lower(url), "railway")
  {
    if Contains(url, ".up.railway.app") {
      var i :| OccursAt(url, ".up.railway.app", i);
      var suffix := ".up.railway.app";
      forall k | 0 <= k < 7 ensures url[i + 4..i + 11][k] == "railway"[k] {
        assert url[i + 4 + k] == url[i..i + 15][4 + k] == suffix[4 + k];
      }
      assert OccursAt(url, "railway", i + 4);
      LowerKeepsLowerOccurrence(url, "railway", i + 4);
    }
  }

  /** A URL that names both Railway and ngrok is reported as Railway. */
  lemma RailwayOverNgrok(url: string)
    requires Contains(Lower(url), "railway") && Contains(Lower(url), "ngrok")
    ensures Status(url) == RailwayStatus
  {
  }

  /** The text shown for an absent answer URL names neither Railway nor ngrok. */
  lemma NotSetIsOther()
    ensures Status("Not set") == OtherStatus
  {
    assert Lower("Not set") == "not set";
    AbsentChar("not set", "railway", 0);
    NotSetLacksNgrok();
    assert !Contains("Not set", ".up.railway.app");
  }

  /** "not set" has no "g", so "ngrok" does not occur in it. */
  lemma NotSetLacksNgrok()
    ensures !Contains("not set", "ngrok")
  {
    AbsentChar("not set", "ngrok", 1);
  }

  /** Nor does "None", the text `str` gives an answer URL that is None. */
  lemma NoneIsOther()
    ensures Status("None") == OtherStatus
  {
    assert Lower("None") == "none";
    AbsentChar("none", "railway", 0);
    AbsentChar("none", "ngrok", 1);
    assert !Contains("None", ".up.railway.app");
  }

  /** An entry whose answer URL is absent or None is reported as neither Railway nor ngrok. */
  lemma UnsetUrlIsOther(entry: NumberEntry)
    requires !entry.answerUrl.Present?
    ensures EntryStatus(entry) == OtherStatus
  {
    NotSetIsOther();
    NoneIsOther();
  }

  /** A word with a character the text lacks does not occur in the text. */
  lemma AbsentChar(s: string, word: string, j: int)
    requires 0 <= j < |word| && word[j] !in s
    ensures !Contains(s, word)
  {
    forall i | 0 <= i ensures !OccursAt(s, word, i) {
      if i + |word| <= |s| {
        assert s[i..i + |word|][j] == s[i + j];
      }
    }
  }

  /**
   * With no configured phone number, an entry is marked exactly when its number is
   * present but None, since `None == None` holds in Python.
   */
  lemma UnconfiguredMarksNullNumber(entry: NumberEntry)
    ensures Marker(NumberOf(entry), PyNone) == ConfiguredMarker <==> entry.number.Null?
  {
  }

  /** With a configured phone number, only an entry holding that number as a string is marked. */
  lemma ConfiguredMarksItsNumber(entry: NumberEntry, phoneNumber: string)
    ensures Marker(NumberOf(entry), PyStr(phoneNumber)) == ConfiguredMarker
        <==> entry.number == Present(phoneNumber) || (entry.number.Missing? && phoneNumber == "?")
  {
  }
}
