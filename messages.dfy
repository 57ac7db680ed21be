/** What the importer writes to the console, one constructor per message. */
module Messages {
  /** Why a page could not be fetched: the status that `raise_for_status`
      rejects, or a failure of the transport itself. */
  datatype FetchError = HttpError(status: int) | TransportFailure(reason: string)

  datatype Message =
    | BlocklistReadFailed(status: int, body: string)
    | AddSucceeded(ip: string)
    | AddFailed(ip: string, status: int, body: string)
    | SpiderFailed(url: string, error: FetchError)
    | AlreadyPresent(ip: string)
}
