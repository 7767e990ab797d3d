/** The string unions the calendar components share. */
module Types {
  /** `'week' | 'custom'`: whether a column type's range follows the week picker. */
  datatype RangeType = WeekRange | CustomRange

  /** `'all' | 'business' | 'weekend'`: which days a date-column range shows. */
  datatype DayFilter = All | Business | Weekend

  /** `'date' | 'week' | 'month' | 'year'`: what one column stands for. */
  datatype ColumnType = Date | Week | Month | Year

  /** `'iso' | 'us'`: how week columns are numbered. */
  datatype WeekNumberType = Iso | Us
}

/** Optional values, for parsers and for the optional fields of a menu event. */
module Options {
  datatype Option<T> = None | Some(value: T)
}
