/** The three ways an event is written as a message (service/messages/format.go). */
module Modes {
  /** With markup; without markup; without markup and without attachments. */
  datatype Mode = Html | Plain | Raw
}
