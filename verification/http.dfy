/** The JSON replies the handlers write: a status code with either a flat
    object of string fields (gin.H) or a service record with its
    sub-services. */
module Http {
  import opened Catalog

  const StatusOK := 200
  const StatusBadRequest := 400
  const StatusForbidden := 403
  const StatusNotFound := 404
  const StatusInternalServerError := 500
  const StatusNotImplemented := 501

  /** The runtime's answer to a start request for a container that is already running */
  const StatusNotModified := 304

  datatype Reply =
    | Fields(code: int, fields: map<string, string>)
    | Record(code: int, service: Service, subServices: seq<Service>)

  /** {"error": message} */
  function Error(code: int, message: string): Reply {
    Fields(code, map["error" := message])
  }

  /** {"status": status} with 200 */
  function Status(status: string): Reply {
    Fields(StatusOK, map["status" := status])
  }
}
