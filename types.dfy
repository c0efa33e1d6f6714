/** Record types shared by the scheduler and its user interface. */
module Types {

  datatype Option<+T> = None | Some(value: T)

  /** A participant: an identifier, a display name, a time-zone identifier
      such as "UTC+05:30", and an optional flag marking the local user. */
  datatype Contact = Contact(id: string, name: string, timeZone: string, isUser: Option<bool>)

  /** The single global preference: six hour-of-day fields (nominally 0..23),
      each pair a range that wraps past midnight when start > end. */
  datatype TimePreference = TimePreference(
    awakeStart: int,
    awakeEnd: int,
    priorityMorningStart: int,
    priorityMorningEnd: int,
    priorityEveningStart: int,
    priorityEveningEnd: int)
}
