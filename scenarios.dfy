/** The behaviours the component's tests describe, as runs of the model from
    mount through a few events to the state the test inspects. */
module Scenarios {
  import opened Units
  import opened Numerals
  import opened InputWidget

  /** "12,3a" is staged as "12.3a". */
  lemma StagesCommaDecimal()
    ensures ReplaceFirstComma("12,3a") == "12.3a"
  {
    var t := ReplaceFirstComma("12,3a");
    assert t[2] == '.';
  }

  /** "12.3a" is read as 12.3: the trailing letter is not part of the match. */
  lemma ReadsTwelvePointThree()
    ensures ParsedNumber("12.3a") == 12.3
  {
    assert "12" + "." + "3" + "a" == "12.3a";
    ReadsDecimal("12", "3", "a");
    TwelvePointThree();
  }

  /** The whole digits "12" and the fraction digits "3" spell 12.3. */
  lemma TwelvePointThree()
    ensures DigitsValue("12") as real + DigitsValue("3") as real / Pow10(|"3"|) as real == 12.3
  {
    var x := DigitsValue("12") as real;
    var y := DigitsValue("3") as real;
    var p := Pow10(|"3"|) as real;
    assert x == 12.0 by {
      assert DigitsValue("1") == 1;
    }
    assert y == 3.0;
    assert p == 10.0;
    assert y / p == 0.3;
  }

  /** "12,3a" is staged as "12.3a" and read as 12.3. */
  lemma ReadsCommaDecimal()
    ensures ParsedNumber(ReplaceFirstComma("12,3a")) == 12.3
  {
    StagesCommaDecimal();
    ReadsTwelvePointThree();
  }

  /** "-5" is staged verbatim and read as -5. */
  lemma ReadsNegative()
    ensures ParsedNumber(ReplaceFirstComma("-5")) == -5.0
  {
    NoCommaVerbatim("-5");
    assert "-5" == "-" + "5";
    ReadsNegativeDigits("5");
    assert DigitsValue("5") == 5;
  }

  /** "150" is staged verbatim and read as 150. */
  lemma ReadsHundredFifty()
    ensures ParsedNumber(ReplaceFirstComma("150")) == 150.0
  {
    NoCommaVerbatim("150");
    ReadsDigits("150");
    HundredFifty();
  }

  lemma HundredFifty()
    ensures DigitsValue("150") == 150
  {
    assert DigitsValue("1") == 1;
    assert DigitsValue("15") == 15;
  }

  /** "20" is staged verbatim and read as 20. */
  lemma ReadsTwenty()
    ensures ParsedNumber(ReplaceFirstComma("20")) == 20.0
  {
    NoCommaVerbatim("20");
    ReadsDigits("20");
    Twenty();
  }

  lemma Twenty()
    ensures DigitsValue("20") == 20
  {
    assert DigitsValue("2") == 2;
  }

  /** Mounted at 10 px, the field shows String(10) under the unit px, and no
      observer has been called. */
  method MountShowsValue(show: real -> string) returns (text: string, u: Unit, log: seq<(real, Unit)>)
    ensures text == show(10.0) && u == Pixel && log == []
  {
    var w := new Widget(10.0, Pixel, show);
    text, u, log := w.staged, w.unit, w.changes;
  }

  /** Switching from px to % with the value 120 shows 100. */
  method SwitchToPercentClamps(show: real -> string) returns (v: real, text: string, log: seq<(real, Unit)>)
    ensures v == 100.0 && text == show(100.0)
    ensures log == [(100.0, Percent)]
  {
    var w := new Widget(120.0, Pixel, show);
    w.Handle(ClickUnit(Percent));
    v, text, log := w.value, w.staged, w.changes;
  }

  /** Switching from px to % with the value 10 reports (10, %). */
  method SwitchUnitNotifies(show: real -> string) returns (log: seq<(real, Unit)>)
    ensures log == [(10.0, Percent)]
  {
    var w := new Widget(10.0, Pixel, show);
    w.Handle(ClickUnit(Percent));
    log := w.changes;
  }

  /** At 0 px the decrease button is disabled: a click changes nothing. */
  method DecreaseDisabledAtZero(show: real -> string) returns (v: real, log: seq<(real, Unit)>)
    ensures v == 0.0 && DecreaseDisabled(v) && log == []
  {
    var w := new Widget(0.0, Pixel, show);
    w.Handle(ClickDecrease);
    v, log := w.value, w.changes;
  }

  /** At 100 % the increase button is disabled: a click changes nothing. */
  method IncreaseDisabledAtHundred(show: real -> string) returns (v: real, log: seq<(real, Unit)>)
    ensures v == 100.0 && IncreaseDisabled(v, Percent) && log == []
  {
    var w := new Widget(100.0, Percent, show);
    w.Handle(ClickIncrease);
    v, log := w.value, w.changes;
  }

  /** Typing "12,3a" and leaving the field commits 12.3. */
  method CommaAndTrailingText(show: real -> string) returns (v: real, text: string)
    ensures v == 12.3 && text == show(12.3)
  {
    ReadsCommaDecimal();
    var w := new Widget(0.0, Pixel, show);
    w.Handle(Edit("12,3a"));
    w.Handle(Blur);
    v, text := w.value, w.staged;
  }

  /** Typing "-5" and leaving the field commits 0, under either unit. */
  method NegativeBecomesZero(show: real -> string, u: Unit) returns (v: real, text: string)
    ensures v == 0.0 && text == show(0.0)
  {
    ReadsNegative();
    var w := new Widget(0.0, u, show);
    w.Handle(Edit("-5"));
    w.Handle(Blur);
    v, text := w.value, w.staged;
  }

  /** Typing "150" at 50 % and leaving the field reverts to 50, not 100. */
  method OverflowRevertsToLastValid(show: real -> string) returns (v: real, text: string)
    ensures v == 50.0 && text == show(50.0)
  {
    ReadsHundredFifty();
    var w := new Widget(50.0, Percent, show);
    w.Handle(Edit("150"));
    w.Handle(Blur);
    v, text := w.value, w.staged;
  }

  /** Typing "20" at 10 px and leaving the field reports (20, px) once. */
  method CommitNotifies(show: real -> string) returns (log: seq<(real, Unit)>)
    ensures log == [(20.0, Pixel)]
  {
    ReadsTwenty();
    var w := new Widget(10.0, Pixel, show);
    w.Handle(Edit("20"));
    w.Handle(Blur);
    log := w.changes;
  }

  /** A unit click that moves neither value nor unit does not run the effect,
      so the uncommitted text "42" of a 50 % widget stays. */
  method UnitClickKeepsDraft(show: real -> string) returns (text: string)
    ensures text == "42"
  {
    NoCommaVerbatim("42");
    var w := new Widget(50.0, Percent, show);
    w.Handle(Edit("42"));
    w.Handle(ClickUnit(Percent));
    text := w.staged;
  }

  /** Mounted at -5 px, a click on % keeps the out-of-range value, and the
      effect leaves the last valid value at -5. */
  method OutOfRangeKeepsLastValid(show: real -> string) returns (v: real, last: real)
    ensures v == -5.0 && last == -5.0
  {
    var w := new Widget(-5.0, Pixel, show);
    w.Handle(ClickUnit(Percent));
    v, last := w.value, w.lastValid;
  }
}
