/** One cell of the month grid (CalendarDay): its class names, its label and
    what a click on it reports. */
module DayCell {
  import opened Text
  import opened JsDates

  /** An element of the class-name array literal: a string, or the `false` an
      `&&` with a false left side yields. */
  datatype ClassPart = Name(name: string) | False

  /** `Boolean(x)`: `false` and the empty string are falsy. */
  predicate Truthy(p: ClassPart) {
    p.Name? && p.name != ""
  }

  /** `parts.filter(Boolean)`, keeping the strings. */
  function FilterTruthy(parts: seq<ClassPart>): (r: seq<string>)
    ensures |r| <= |parts|
    ensures forall i :: 0 <= i < |r| ==> r[i] != ""
  {
    if parts == [] then []
    else if Truthy(parts[0]) then [parts[0].name] + FilterTruthy(parts[1..])
    else FilterTruthy(parts[1..])
  }

  /** `cond && s`. */
  function When(cond: bool, s: string): ClassPart {
    if cond then Name(s) else False
  }

  /** The className of a day cell; both flags default to false. */
  function ClassNames(isToday: bool, isSelected: bool): string {
    Join(FilterTruthy([Name("calendar-day"), When(isToday, "today"), When(isSelected, "selected")]), " ")
  }

  /** The names that survive `filter(Boolean)`, in the literal's order. */
  function ClassWords(isToday: bool, isSelected: bool): seq<string> {
    ["calendar-day"] + (if isToday then ["today"] else []) + (if isSelected then ["selected"] else [])
  }

  lemma FilteredClassParts(isToday: bool, isSelected: bool)
    ensures FilterTruthy([Name("calendar-day"), When(isToday, "today"), When(isSelected, "selected")])
         == ClassWords(isToday, isSelected)
  {
    var parts := [Name("calendar-day"), When(isToday, "today"), When(isSelected, "selected")];
    var tail2 := parts[1..][1..];
    assert tail2 == [When(isSelected, "selected")] && tail2[1..] == [];
    assert FilterTruthy(tail2) == if isSelected then ["selected"] else [];
    assert FilterTruthy(parts[1..]) == (if isToday then ["today"] else []) + FilterTruthy(tail2);
    assert FilterTruthy(parts) == ["calendar-day"] + FilterTruthy(parts[1..]);
  }

  /** The class string is `calendar-day`, then ` today` when the day is today,
      then ` selected` when it is selected; with both flags at their default
      it is `calendar-day` alone. */
  lemma ClassNamesSpelledOut(isToday: bool, isSelected: bool)
    ensures ClassNames(isToday, isSelected)
         == "calendar-day" + (if isToday then " today" else "") + (if isSelected then " selected" else "")
    ensures ClassNames(false, false) == "calendar-day"
  {
    FilteredClassParts(isToday, isSelected);
    FilteredClassParts(false, false);
    var w := ClassWords(isToday, isSelected);
    if |w| == 3 {
      assert w[1..] == ["today", "selected"] && w[1..][1..] == ["selected"];
      assert Join(w[1..][1..], " ") == "selected";
      assert Join(w[1..], " ") == "today" + " " + "selected";
      assert Join(w, " ") == "calendar-day" + " " + ("today" + " " + "selected");
    } else if |w| == 2 {
      assert w[1..] == [w[1]];
      assert Join(w, " ") == "calendar-day" + " " + w[1];
    }
  }

  predicate NoSpace(w: string) {
    forall k :: 0 <= k < |w| ==> w[k] != ' '
  }

  /** The words of the class string, split at single spaces. */
  function Tokens(className: string): seq<string> {
    Split(className, ' ')
  }

  /** The tokens are exactly the names that survive the filter. */
  lemma ClassTokens(isToday: bool, isSelected: bool)
    ensures Tokens(ClassNames(isToday, isSelected)) == ClassWords(isToday, isSelected)
  {
    var words := ClassWords(isToday, isSelected);
    FilteredClassParts(isToday, isSelected);
    assert NoSpace("calendar-day") && NoSpace("today") && NoSpace("selected");
    assert forall i :: 0 <= i < |words| ==> NoSpace(words[i]);
    SplitJoin(words, ' ');
  }

  /** The class string starts with the token `calendar-day` and holds the token
      `today` exactly when the day is today and `selected` exactly when it is
      selected. */
  lemma ClassTokenMembership(isToday: bool, isSelected: bool)
    ensures Tokens(ClassNames(isToday, isSelected))[0] == "calendar-day"
    ensures "today" in Tokens(ClassNames(isToday, isSelected)) <==> isToday
    ensures "selected" in Tokens(ClassNames(isToday, isSelected)) <==> isSelected
  {
    ClassTokens(isToday, isSelected);
    var words := ClassWords(isToday, isSelected);
    assert "calendar-day" != "today" && "calendar-day" != "selected" && "today" != "selected";
    if isToday && isSelected {
      assert words == ["calendar-day", "today", "selected"];
    } else if isToday {
      assert words == ["calendar-day", "today"];
    } else if isSelected {
      assert words == ["calendar-day", "selected"];
    } else {
      assert words == ["calendar-day"];
    }
  }

  /** What a rendered cell shows and does. */
  datatype Cell = Cell(className: string, dayText: string, onClickArgument: JsDate)

  /** A CalendarDay for `date`: the text is its day of the month and a click
      passes the date itself to onClick. */
  function Render(date: JsDate, isToday: bool, isSelected: bool): (c: Cell)
    ensures forall i :: 0 <= i < |c.dayText| ==> IsDigit(c.dayText[i])
    ensures ParseDecimal(c.dayText) == GetDate(date)
    ensures c.onClickArgument == date
  {
    DecimalRoundTrip(GetDate(date));
    Cell(ClassNames(isToday, isSelected), DecimalString(GetDate(date)), date)
  }
}
