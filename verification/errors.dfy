/** The errors the synchronisation engine can raise. Each constructor stands
    for one `throw` (or library failure) in the source; `Message` gives the
    text the source attaches to it. */
module Errors {

  datatype SyncError =
    | FetchFailed(reason: string)     // HTTP failure, timeout or CSV tokenising failure
    | InvalidDate(raw: string)        // `toDate` on text `new Date` cannot read
    | DateMissing                     // `toDate` on an absent cell (`undefined.trim()`)
    | RosterTableNotFound             // no roster table on the club page
    | RosterEmpty                     // club roster with zero members
    | ExtendedRangeUnconfirmed        // `monthsBack > 12` without confirmation

  function Message(e: SyncError): string {
    match e
    case FetchFailed(reason) => reason
    case InvalidDate(raw) => "Invalid date: " + raw
    case DateMissing => "Cannot read properties of undefined (reading 'trim')"
    case RosterTableNotFound => "Club roster table not found."
    case RosterEmpty => "Club roster is empty."
    case ExtendedRangeUnconfirmed => "Extended range requested. Set confirmExtendedRange=true to proceed."
  }
}
