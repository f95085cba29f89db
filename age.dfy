/**
 * calculateAge: completed years between a birth date and today. Dates are given as the
 * (getFullYear, getMonth, getDate) triples the source reads off its Date objects.
 */
module Age {

  datatype Date = Date(year: int, month: int, day: int)

  /** Calendar order on (year, month, day). */
  predicate OnOrBefore(a: Date, b: Date) {
    a.year < b.year
    || (a.year == b.year && (a.month < b.month || (a.month == b.month && a.day <= b.day)))
  }

  /** The k-th anniversary of a birth date. */
  function Anniversary(birth: Date, k: int): Date {
    Date(birth.year + k, birth.month, birth.day)
  }

  /**
   * The year difference, less one when today's (month, day) comes before the birth (month, day).
   * The result is the number of completed years: the age-th anniversary has been reached and
   * the next one has not.
   */
  function CalculateAge(birth: Date, today: Date): (age: int)
    ensures OnOrBefore(Anniversary(birth, age), today)
    ensures !OnOrBefore(Anniversary(birth, age + 1), today)
  {
    var age := today.year - birth.year;
    var monthDiff := today.month - birth.month;
    if monthDiff < 0 || (monthDiff == 0 && today.day < birth.day) then age - 1 else age
  }

  /** Completed years are unique: any k whose anniversary is reached while the next is not is the age. */
  lemma CompletedYearsUnique(birth: Date, today: Date, k: int)
    requires OnOrBefore(Anniversary(birth, k), today)
    requires !OnOrBefore(Anniversary(birth, k + 1), today)
    ensures k == CalculateAge(birth, today)
  {
  }

  /** On the birthday itself the age is the plain year difference. */
  lemma AgeOnBirthday(birth: Date, year: int)
    ensures CalculateAge(birth, Date(year, birth.month, birth.day)) == year - birth.year
  {
  }

  /** On the day before the birthday, in the same month, the age is one less. */
  lemma AgeDayBeforeBirthday(birth: Date, year: int)
    requires birth.day > 1
    ensures CalculateAge(birth, Date(year, birth.month, birth.day - 1)) == year - birth.year - 1
  {
  }

  /** For a birthday on the first of a month, any day of the previous month is still before it. */
  lemma AgeMonthBeforeBirthday(birth: Date, year: int, day: int)
    requires birth.day == 1 && birth.month > 0
    ensures CalculateAge(birth, Date(year, birth.month - 1, day)) == year - birth.year - 1
  {
  }

  /** For a birthday on the first of January, any day of December of the year before is still before it. */
  lemma AgeNewYearsEveBeforeBirthday(birth: Date, year: int, day: int)
    requires birth.day == 1 && birth.month == 0
    ensures CalculateAge(birth, Date(year - 1, 11, day)) == year - birth.year - 1
  {
  }

  /** Born 2000-06-15 (getMonth() is 5 for June): 23 on 2024-06-14, 24 on 2024-06-15. */
  lemma AgeExamples()
    ensures CalculateAge(Date(2000, 5, 15), Date(2024, 5, 14)) == 23
    ensures CalculateAge(Date(2000, 5, 15), Date(2024, 5, 15)) == 24
  {
  }
}
