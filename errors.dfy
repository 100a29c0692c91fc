/**
 * The error kinds behind the messages of DarwinException. Each constructor
 * stands for one message text thrown by the core; the text itself is not
 * modelled.
 */
module Errors {

  datatype Error =
    | UnknownCommand          // no keyword matched
    | FindFormat              // 'find' with nothing after the keyword
    | EmptyKeyword            // 'find' whose keyword trims to nothing
    | MissingTaskNumber       // fewer than two whitespace-separated tokens
    | NotANumber(after: string) // second token is not an int; names the keyword the message quotes
    | TodoFormat              // 'todo' with nothing after the keyword
    | EmptyDescription        // 'todo' whose description trims to nothing
    | DeadlineFormat          // 'deadline' too short or without " /by "
    | DeadlineFieldsEmpty     // description or date of a deadline trims to nothing
    | EventFormat             // 'event' too short or without " /from " / " /to "
    | EventFieldsEmpty        // description, start or end of an event trims to nothing
    | DeleteFormat            // 'delete' with nothing after the keyword
    | ListFull                // "Task list is full!" (also what deleteTask reports)
    | InvalidTaskNumber       // markTask / getTask out of range
    | InvalidDate             // DateParser could not read yyyy-mm-dd
    | InvalidEventDates       // an event whose start is after its end
    | NoKeyword               // FindCommand run with an empty keyword

  /** A value or the error a DarwinException would carry. */
  datatype Result<+T> = Success(value: T) | Failure(error: Error)

  /** The outcome of a void operation that may throw. */
  datatype Outcome = Pass | Fail(error: Error)
}
