/** The rejection every endpoint raises: FastAPI's `HTTPException(status_code, detail)`. */
module Http {

  datatype HttpError = HttpError(status: int, detail: string)
}
