/** What a controller action ends with, as far as the store and the user see it. */
module Responses {
  /** The kind of flash message shown after a redirect. */
  datatype Flash = Success | Danger

  /**
   * A redirect with a flash message, a page rendered without one, or an
   * uncaught PHP error (the store is then left as it was).
   */
  datatype Outcome = Flashed(flash: Flash) | Rendered | Fatal
}
