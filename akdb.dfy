/** AKDBTest.java: formatiereAusloeser builds the German trigger text
    "Wegzug (verzogen am <date> nach <place>)" ("moved away on <date> to
    <place>") from an optional moving date and an optional place, writing
    "Unbekannt" ("unknown") for whichever is missing. The date, which the tests
    take from the clock, is a parameter here. */
module Akdb {
  import opened Wrappers
  import opened LocalDates
  import opened StringFormat

  const VerzogenAm: string := "%s (verzogen am %s nach %s)"
  const WegzugDatumUnbekannt: string := "Unbekannt"
  const WegzugAdresseUnbekannt: string := "Unbekannt"
  /** The Joda-Time pattern that LocalDates.FormatDate renders. */
  const DatumOhneZeit: string := "dd.MM.yyyy"
  /** The text of the first slot, fixed by formatiereAusloeser. */
  const Wegzug: string := "Wegzug"

  /** The fixed texts around the slots of VerzogenAm, and the opening of every
      trigger text: the first slot's "Wegzug" and the text after it. */
  const Verzogen: string := " (verzogen am "
  const Nach: string := " nach "
  const Opening: string := "Wegzug (verzogen am "

  /** VerzogenAm is three %s slots around Verzogen, Nach and ")", with
      nothing before the first slot: the form StringFormat.FormatThreeSlots
      takes. Comparing the literal's characters is stated on its own here. */
  lemma VerzogenAmShape()
    ensures VerzogenAm == [] + ("%s" + (Verzogen + ("%s" + (Nach + ("%s" + ")")))))
  {
  }

  /** Every trigger text opens with the first slot's text followed by Verzogen. */
  lemma OpeningShape()
    ensures Opening == Wegzug + Verzogen
  {
  }

  /** Regrouping the pieces of a filled template. */
  lemma Flatten(a: string, b: string, c: string, d: string, e: string, f: string)
    ensures [] + (a + (b + (c + (d + (e + f))))) == a + b + c + d + e + f
  {
  }

  /** VerzogenAm with three arguments: each %s takes the next argument
      verbatim, and the text between the slots is copied. */
  lemma FillVerzogenAm(first: string, second: string, third: string)
    ensures Format(VerzogenAm, [first, second, third]) == Ok(first + Verzogen + second + Nach + third + ")")
  {
    VerzogenAmShape();
    FormatThreeSlots([], Verzogen, Nach, ")", first, second, third);
    Flatten(first, Verzogen, second, Nach, third, ")");
  }

  /** formatiereAusloeser: String.format(VERZOGEN_AM, "Wegzug", the date
      rendered as dd.MM.yyyy or else "Unbekannt", the place or else
      "Unbekannt"). The result is "Wegzug (verzogen am <date> nach <place>)". */
  function FormatiereAusloeser(wegzugsDatum: Option<Date>, ort: Option<string>): (s: string)
    ensures s == "Wegzug (verzogen am "
               + (if wegzugsDatum.Some? then FormatDate(wegzugsDatum.value) else "Unbekannt")
               + " nach "
               + (if ort.Some? then ort.value else "Unbekannt")
               + ")"
  {
    var datum := wegzugsDatum.Map(FormatDate).GetOr(WegzugDatumUnbekannt);
    var adresse := ort.GetOr(WegzugAdresseUnbekannt);
    FillVerzogenAm(Wegzug, datum, adresse);
    OpeningShape();
    assert Wegzug + Verzogen + datum == Opening + datum;
    Format(VerzogenAm, [Wegzug, datum, adresse]).value
  }

  // ----------------------------------------------------------------------
  // The four tests, with the date the tests expect from the clock

  const April6th2019: Date := LocalDate(2019, 4, 6)

  lemma FormatApril6th2019()
    ensures FormatDate(April6th2019) == "06.04.2019"
  {
    assert Digits(6) == "6" && Digits(4) == "4";
    assert Pad(6, 2) == "06" && Pad(4, 2) == "04";
    assert Digits(2) == "2";
    assert Digits(20) == "20";
    assert Digits(201) == "201";
    assert Digits(2019) == "2019";
    assert Pad(2019, 4) == "2019";
  }

  lemma DatumPresentAndOrtPresent()
    ensures FormatiereAusloeser(Some(April6th2019), Some("Berlin")) == "Wegzug (verzogen am 06.04.2019 nach Berlin)"
  {
    FormatApril6th2019();
  }

  lemma DatumAbsentAndOrtPresent()
    ensures FormatiereAusloeser(None, Some("Berlin")) == "Wegzug (verzogen am Unbekannt nach Berlin)"
  {
  }

  lemma DatumPresentAndOrtAbsent()
    ensures FormatiereAusloeser(Some(April6th2019), None) == "Wegzug (verzogen am 06.04.2019 nach Unbekannt)"
  {
    FormatApril6th2019();
  }

  lemma DatumAbsentAndOrtAbsent()
    ensures FormatiereAusloeser(None, None) == "Wegzug (verzogen am Unbekannt nach Unbekannt)"
  {
  }

  // ----------------------------------------------------------------------
  // Reading the text back

  /** The longest prefix of s without a space. */
  function Word(s: string): (w: string)
    ensures |w| <= |s| && w == s[..|w|]
    ensures ' ' !in w
    ensures |w| < |s| ==> s[|w|] == ' '
  {
    if s == [] || s[0] == ' ' then [] else [s[0]] + Word(s[1..])
  }

  lemma {:induction false} WordBeforeSpace(w: string, rest: string)
    requires ' ' !in w && rest != [] && rest[0] == ' '
    ensures Word(w + rest) == w
    decreases |w|
  {
    if w != [] {
      assert (w + rest)[1..] == w[1..] + rest;
      assert w[0] in w;
      assert forall c :: c in w[1..] ==> c in w;
      WordBeforeSpace(w[1..], rest);
      assert [w[0]] + w[1..] == w;
    } else {
      assert w + rest == rest;
    }
  }

  /** Reads the date slot: "Unbekannt" stands for no date, anything else must
      be a dd.MM.yyyy date. */
  function ParseDateSlot(slot: string): (r: Option<Option<Date>>)
    ensures r == Some(None) <==> slot == WegzugDatumUnbekannt
  {
    if slot == WegzugDatumUnbekannt then Some(None)
    else
      match ParseDate(slot)
      case Some(d) => Some(Some(d))
      case None => None
  }

  /** Recovers the date and the place text from a trigger text: the date slot
      is "Unbekannt" or a dd.MM.yyyy date, neither of which holds a space, and
      the place is everything between " nach " and the closing parenthesis. */
  function ParseAusloeser(s: string): Option<(Option<Date>, string)> {
    if |s| < |Opening| || s[..|Opening|] != Opening then None
    else
      var rest := s[|Opening|..];
      var slot := Word(rest);
      var tail := rest[|slot|..];
      if |tail| < |Nach| + 1 || tail[..|Nach|] != Nach || tail[|tail| - 1] != ')' then None
      else
        var place := tail[|Nach|..|tail| - 1];
        match ParseDateSlot(slot)
        case Some(d) => Some((d, place))
        case None => None
  }

  /** A trigger text is split back into its date slot and its place, whatever
      the place holds, as long as the slot has no space. */
  lemma SplitAusloeser(slot: string, place: string)
    requires ' ' !in slot
    requires ParseDateSlot(slot).Some?
    ensures ParseAusloeser(Opening + slot + Nach + place + ")") == Some((ParseDateSlot(slot).value, place))
  {
    var tail := Nach + place + ")";
    var s := Opening + slot + Nach + place + ")";
    assert s == Opening + (slot + tail);
    assert s[..|Opening|] == Opening;
    assert s[|Opening|..] == slot + tail;
    WordBeforeSpace(slot, tail);
    assert (slot + tail)[|slot|..] == tail;
    assert tail[..|Nach|] == Nach;
    assert tail[|Nach|..|tail| - 1] == place;
  }

  /** The date slot's text never contains a space and reads back as the date
      it was written for. */
  lemma ReadDateSlot(wegzugsDatum: Option<Date>)
    ensures ' ' !in (if wegzugsDatum.Some? then FormatDate(wegzugsDatum.value) else "Unbekannt")
    ensures ParseDateSlot(if wegzugsDatum.Some? then FormatDate(wegzugsDatum.value) else "Unbekannt") == Some(wegzugsDatum)
  {
    if wegzugsDatum.Some? {
      var text := FormatDate(wegzugsDatum.value);
      assert text[0] != "Unbekannt"[0];
      assert forall i :: 0 <= i < |text| ==> text[i] != ' ';
      ParseFormatDate(wegzugsDatum.value);
    }
  }

  /** Reading a trigger text gives back the date and the place as written:
      no information is lost except whether "Unbekannt" came from an absent
      place or from a place of that name. */
  lemma ParseFormatiereAusloeser(wegzugsDatum: Option<Date>, ort: Option<string>)
    ensures ParseAusloeser(FormatiereAusloeser(wegzugsDatum, ort)) == Some((wegzugsDatum, ort.GetOr(WegzugAdresseUnbekannt)))
  {
    var slot := if wegzugsDatum.Some? then FormatDate(wegzugsDatum.value) else "Unbekannt";
    ReadDateSlot(wegzugsDatum);
    SplitAusloeser(slot, ort.GetOr(WegzugAdresseUnbekannt));
  }

  /** Equal trigger texts have equal dates and equal place texts. */
  lemma FormatiereAusloeserInjective(d1: Option<Date>, o1: Option<string>, d2: Option<Date>, o2: Option<string>)
    requires FormatiereAusloeser(d1, o1) == FormatiereAusloeser(d2, o2)
    ensures d1 == d2
    ensures o1.GetOr(WegzugAdresseUnbekannt) == o2.GetOr(WegzugAdresseUnbekannt)
  {
    ParseFormatiereAusloeser(d1, o1);
    ParseFormatiereAusloeser(d2, o2);
  }
}
