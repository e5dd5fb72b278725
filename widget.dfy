/** The widget's state machine: the root's value and unit with the observer
    they notify, the field's staged text and last valid value, the effect
    that resynchronises the field after every value or unit change, and the
    event handlers wired to the field, the unit targets and the step buttons. */
module InputWidget {
  import opened Units
  import opened Numerals

  /** The user events the widget reacts to. */
  datatype Event =
    | Edit(text: string)
    | Blur
    | KeyDown(key: string)
    | ClickUnit(target: Unit)
    | ClickIncrease
    | ClickDecrease

  /** Whether an event reaches one of the two mutators, and so the observer:
      edits only stage text, other keys than Enter do nothing, and a disabled
      button does not fire its click. */
  predicate Notifies(e: Event, v: real, u: Unit) {
    match e
    case Edit(_) => false
    case Blur => true
    case KeyDown(key) => key == "Enter"
    case ClickUnit(_) => true
    case ClickIncrease => !IncreaseDisabled(v, u)
    case ClickDecrease => !DecreaseDisabled(v)
  }

  /** One mounted widget: Input's currentValue and currentUnit together with
      InputField's inputValue and lastValidValue. */
  class Widget {
    var value: real
    var unit: Unit
    /** The calls made to the onChange observer, oldest first. */
    var changes: seq<(real, Unit)>
    /** The field's uncommitted text. */
    var staged: string
    var lastValid: real
    /** The value and unit the synchronisation effect last ran with. */
    var seenValue: real
    var seenUnit: Unit
    /** The number-to-text conversion String(num). */
    const show: real -> string

    /** The effect has caught up with the current value and unit. */
    ghost predicate Settled()
      reads this
    {
      seenValue == value && seenUnit == unit
    }

    /** The last valid value is the value the effect last saw whenever that
        value was in range for the unit it was seen with. */
    ghost predicate Coherent()
      reads this
    {
      InRange(seenValue, seenUnit) ==> lastValid == seenValue
    }

    /** A settled widget whose value its unit admits. */
    ghost predicate Valid()
      reads this
    {
      Coherent() && Settled() && InRange(value, unit)
    }

    /** Mounting: both components take the initial value and unit; the last
        valid value starts as the initial value, unchecked, and the first run
        of the effect leaves it so. */
    constructor (initialValue: real, initialUnit: Unit, show: real -> string)
      ensures value == initialValue && unit == initialUnit
      ensures lastValid == initialValue && staged == show(initialValue)
      ensures changes == [] && this.show == show
      ensures Coherent() && Settled()
      ensures InRange(initialValue, initialUnit) ==> Valid()
    {
      value := initialValue;
      unit := initialUnit;
      changes := [];
      lastValid := initialValue;
      staged := show(initialValue);
      seenValue := initialValue;
      seenUnit := initialUnit;
      this.show := show;
    }

    /** Input.handleSetUnit. */
    method SetUnit(next: Unit)
      requires Coherent()
      modifies this
      ensures value == SwitchedValue(old(value), next) && unit == next
      ensures changes == old(changes) + [(value, next)]
      ensures staged == old(staged) && lastValid == old(lastValid)
      ensures seenValue == old(seenValue) && seenUnit == old(seenUnit)
      ensures Coherent()
      ensures 0.0 <= old(value) ==> InRange(value, unit)
    {
      var newValue := value;
      if next == Percent && value > 100.0 {
        newValue := 100.0;
      }
      changes := changes + [(newValue, next)];
      unit := next;
      value := newValue;
    }

    /** Input.handleSetValue: the value is stored as given. */
    method SetValue(v: real)
      requires Coherent()
      modifies this
      ensures value == v && unit == old(unit)
      ensures changes == old(changes) + [(v, old(unit))]
      ensures staged == old(staged) && lastValid == old(lastValid)
      ensures seenValue == old(seenValue) && seenUnit == old(seenUnit)
      ensures Coherent()
    {
      changes := changes + [(v, unit)];
      value := v;
    }

    /** InputField.handleChange: the edited text is staged with its first
        comma turned into a period. */
    method Change(text: string)
      modifies this`staged
      ensures staged == ReplaceFirstComma(text)
    {
      staged := ReplaceFirstComma(text);
    }

    /** InputField.handleBlur, run on blur and on Enter. */
    method Commit()
      requires Coherent()
      modifies this
      ensures value == Resolve(ParsedNumber(old(staged)), old(unit), old(lastValid))
      ensures staged == show(value) && unit == old(unit)
      ensures changes == old(changes) + [(value, unit)]
      ensures lastValid == old(lastValid)
      ensures seenValue == old(seenValue) && seenUnit == old(seenUnit)
      ensures Coherent()
      ensures old(Valid()) ==> InRange(value, unit)
      ensures old(Valid()) && unit == Percent && ParsedNumber(old(staged)) > 100.0 ==>
        value == old(value)
    {
      var num := ParsedNumber(staged);
      // parseFloat never yields NaN on a matched numeral, so the NaN guard has
      // no effect here
      if num < 0.0 {
        num := 0.0;
      }
      if unit == Percent && num > 100.0 {
        num := lastValid;
      }
      staged := show(num);
      SetValue(num);
    }

    /** The handler of the decrease button. */
    method Decrease()
      requires Coherent()
      modifies this
      ensures value == DecreaseTarget(old(value)) && unit == old(unit)
      ensures changes == old(changes) + [(value, unit)]
      ensures staged == old(staged) && lastValid == old(lastValid)
      ensures seenValue == old(seenValue) && seenUnit == old(seenUnit)
      ensures Coherent()
      ensures InRange(old(value), unit) ==> InRange(value, unit)
    {
      SetValue(DecreaseTarget(value));
    }

    /** The handler of the increase button: one step under each unit. */
    method Increase()
      requires Coherent()
      modifies this
      ensures value == IncreaseTarget(old(value), old(unit)) && unit == old(unit)
      ensures changes == old(changes) + [(value, unit)]
      ensures staged == old(staged) && lastValid == old(lastValid)
      ensures seenValue == old(seenValue) && seenUnit == old(seenUnit)
      ensures Coherent()
      ensures InRange(old(value), unit) ==> InRange(value, unit)
    {
      var v, u := value, unit;
      if u == Percent {
        SetValue(if v + 1.0 < 100.0 then v + 1.0 else 100.0);
      }
      if u == Pixel {
        SetValue(v + 1.0);
      }
    }

    /** InputField's effect on [value, unit]: when either changed since its
        last run, it refreshes the last valid value if the unit admits the
        value, and resets the staged text to String(value). */
    method Sync()
      requires Coherent()
      modifies this
      ensures value == old(value) && unit == old(unit) && changes == old(changes)
      ensures Settled() && Coherent()
      ensures old(Settled()) ==> staged == old(staged) && lastValid == old(lastValid)
      ensures !old(Settled()) ==> staged == show(value)
      ensures !old(Settled()) ==>
        lastValid == if InRange(value, unit) then value else old(lastValid)
      ensures InRange(value, unit) ==> Valid() && lastValid == value
    {
      if value != seenValue || unit != seenUnit {
        if InRange(value, unit) {
          lastValid := value;
        }
        staged := show(value);
        seenValue, seenUnit := value, unit;
      }
    }

    /** One event, dispatched as the rendered elements wire it, followed by
        the effect. The observer is called once when the event reaches a
        mutator and never otherwise, always with the final value and unit,
        and a valid widget stays valid. */
    method Handle(e: Event)
      requires Coherent()
      modifies this
      ensures Settled() && Coherent()
      ensures old(Valid()) ==> Valid()
      ensures old(changes) <= changes
      ensures |changes| == |old(changes)| + if Notifies(e, old(value), old(unit)) then 1 else 0
      ensures Notifies(e, old(value), old(unit)) ==> changes[|changes| - 1] == (value, unit)
      ensures !Notifies(e, old(value), old(unit)) ==> value == old(value) && unit == old(unit)
      // what each event does to value and unit
      ensures e.ClickUnit? ==> value == SwitchedValue(old(value), e.target) && unit == e.target
      ensures e.Blur? || e == KeyDown("Enter") ==>
        value == Resolve(ParsedNumber(old(staged)), old(unit), old(lastValid)) &&
        unit == old(unit) && staged == show(value)
      ensures e.ClickIncrease? && !IncreaseDisabled(old(value), old(unit)) ==>
        value == IncreaseTarget(old(value), old(unit)) && unit == old(unit)
      ensures e.ClickDecrease? && !DecreaseDisabled(old(value)) ==>
        value == DecreaseTarget(old(value)) && unit == old(unit)
      // an event that reaches no mutator leaves a settled field as it was,
      // except that an edit stages its text
      ensures !Notifies(e, old(value), old(unit)) && old(Settled()) ==>
        lastValid == old(lastValid) &&
        staged == if e.Edit? then ReplaceFirstComma(e.text) else old(staged)
      // the effect, when value or unit moved away from what it last saw
      ensures value != old(seenValue) || unit != old(seenUnit) ==> staged == show(value)
      ensures InRange(value, unit) ==> lastValid == value
      ensures !InRange(value, unit) ==> lastValid == old(lastValid)
      // when nothing moved, the effect does not run and no commit restages,
      // so the uncommitted text stays
      ensures (old(Settled()) && value == old(value) && unit == old(unit) &&
               !(e.Blur? || e == KeyDown("Enter"))) ==>
        staged == if e.Edit? then ReplaceFirstComma(e.text) else old(staged)
    {
      match e {
        case Edit(text) =>
          Change(text);
        case Blur =>
          Commit();
        case KeyDown(key) =>
          if key == "Enter" {
            Commit();
          }
        case ClickUnit(target) =>
          SetUnit(target);
        case ClickIncrease =>
          if !IncreaseDisabled(value, unit) {
            Increase();
          }
        case ClickDecrease =>
          if !DecreaseDisabled(value) {
            Decrease();
          }
      }
      Sync();
    }
  }
}
