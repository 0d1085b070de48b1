/** The events exchanged between the services (shared/events/events.go). */
module Events {

  datatype ClickEvent = ClickEvent(
    eventId: string, shortCode: string, userId: string, userEmail: string, correlationId: string,
    clickedAt: int, ipHash: string, userAgent: string, referer: string)

  /** What an outbox row carries; the constructor is the routing key. */
  datatype Payload =
    | UrlCreated(eventId: string, shortCode: string, originalUrl: string, userId: string,
                 userEmail: string, expiresAt: int)
    | UrlDeleted(eventId: string, shortCode: string, userId: string, userEmail: string)
    | UrlClicked(click: ClickEvent)

  function EventIdOf(payload: Payload): string {
    if payload.UrlClicked? then payload.click.eventId else payload.eventId
  }
}
