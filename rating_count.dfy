/** The rating count of `parse_info`: the text of the rating-count element
    with every comma removed, read by `int()`. */
module RatingCount {
  import opened Outcomes
  import opened Text
  import opened Numbers

  /** `int(text.replace(",", ""))`. */
  function ParseRatingCount(text: string): (r: Result<int>)
    ensures r.Err? ==> r.error == ValueError
  {
    ParseInt(Without(text, ','))
  }

  /** Commas are ignored wherever they are: removing them first changes nothing. */
  lemma CommasIgnored(text: string)
    ensures ParseRatingCount(Without(text, ',')) == ParseRatingCount(text)
  {
    WithoutSpec(text, ',');
    WithoutSpec(Without(text, ','), ',');
  }

  predicate ReadsAs(digits: string, n: nat) {
    digits != [] && AllDigits(digits) && Value(digits) == n
  }

  lemma NoCommaInDigits(d: string)
    requires AllDigits(d)
    ensures Without(d, ',') == d
  {
    assert forall k :: 0 <= k < |d| ==> d[k] != ',';
    WithoutSpec(d, ',');
  }

  /** Removing the commas from the grouped rendering of `n` leaves digits
      whose value is `n`. */
  lemma {:induction false} UngroupedDigits(n: nat)
    ensures ReadsAs(Without(Grouped(n), ','), n)
    decreases n
  {
    if n < 1000 {
      NoCommaInDigits(Decimal(n));
      ValueOfDecimal(n);
    } else {
      UngroupedDigits(n / 1000);
      UngroupedStep(n, Without(Grouped(n / 1000), ','));
    }
  }

  lemma UngroupedStep(n: nat, u: string)
    requires n >= 1000
    requires u == Without(Grouped(n / 1000), ',') && ReadsAs(u, n / 1000)
    ensures ReadsAs(Without(Grouped(n), ','), n)
  {
    var head := Grouped(n / 1000);
    var tail := ThreeDigits(n % 1000);
    calc {
      Without(Grouped(n), ',');
      Without(head + "," + tail, ',');
      { WithoutAppend(head + ",", tail, ','); WithoutAppend(head, ",", ','); }
      u + Without(",", ',') + Without(tail, ',');
      { NoCommaInDigits(tail); assert Without(",", ',') == ""; }
      u + tail;
    }
    assert AllDigits(u + tail) by { AllDigitsAppend(u, tail); }
    calc {
      Value(u + tail);
      { ValueAppend(u, tail); }
      Value(u) * Pow10(3) + Value(tail);
      { assert Pow10(3) == 1000; }
      n / 1000 * 1000 + n % 1000;
      n;
    }
  }

  /** The rating count inverts thousands grouping: `f"{n:,}"` reads back as `n`. */
  lemma ParseRatingCountOfGrouped(n: nat)
    ensures ParseRatingCount(Grouped(n)) == Ok(n)
  {
    UngroupedDigits(n);
    ParseIntOfDigits(Without(Grouped(n), ','));
  }

  lemma GroupedExample()
    ensures Grouped(1234) == "1,234"
  {
    assert DigitChar(1) == '1' && DigitChar(2) == '2' && DigitChar(3) == '3' && DigitChar(4) == '4';
    assert ThreeDigits(234) == "234";
    assert Decimal(1) == "1";
  }

  /** "1,234" gives 1234. */
  lemma ExampleThousands()
    ensures ParseRatingCount("1,234") == Ok(1234)
  {
    calc {
      ParseRatingCount("1,234");
      { assert Grouped(1234) == "1,234" by { GroupedExample(); } }
      ParseRatingCount(Grouped(1234));
      { ParseRatingCountOfGrouped(1234); }
      Ok(1234);
    }
  }

  /** Text with anything but digits, underscores, a sign and surrounding
      whitespace left after the commas are removed raises ValueError. */
  lemma RejectsNonDigits(text: string, k: nat)
    requires var b := SignAndBody(Without(text, ',')).body;
      k < |b| && !IsDigit(b[k]) && b[k] != '_'
    ensures ParseRatingCount(text) == Err(ValueError)
  {
  }

  /** A trailing U+001F is not stripped: "12" followed by it raises
      ValueError. */
  lemma TrailingSeparatorRejected(text: string)
    requires |text| == 3 && text[0] == '1' && text[1] == '2' && text[2] == 31 as char
    ensures ParseRatingCount(text) == Err(ValueError)
  {
    assert ',' !in text;
    WithoutSpec(text, ',');
    assert !IsIntSpace(text[0]) && !IsIntSpace(text[2]);
    TrimUnchanged(text);
  }
}
