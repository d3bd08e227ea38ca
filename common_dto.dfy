/** The uniform JSON envelope every endpoint answers with, and its three
    constructors. `Data` is any payload; absent fields are None. */
module CommonDto {
  import opened Base

  datatype Pagination = Pagination(currentPage: int, perPage: int, totalPages: int, totalItems: int)

  datatype ApiResponse<D> = ApiResponse(
    success: bool,
    message: string,
    data: Option<D>,
    pagination: Option<Pagination>,
    error: string)

  function NewSuccessResponse<D>(message: string, data: Option<D>): ApiResponse<D>
  {
    ApiResponse(true, message, data, None, "")
  }

  function NewSuccessResponseWithPagination<D>(message: string, data: Option<D>, pagination: Option<Pagination>): ApiResponse<D>
  {
    ApiResponse(true, message, data, pagination, "")
  }

  function NewErrorResponse<D>(message: string, err: string): ApiResponse<D>
  {
    ApiResponse(false, message, None, None, err)
  }

  /** The three ways the code builds a response. */
  datatype Construction<D> =
    | Success(message: string, data: Option<D>)
    | SuccessPaged(message: string, data: Option<D>, pagination: Option<Pagination>)
    | Failure(message: string, err: string)

  function Build<D>(c: Construction<D>): ApiResponse<D>
  {
    match c
    case Success(m, d) => NewSuccessResponse(m, d)
    case SuccessPaged(m, d, p) => NewSuccessResponseWithPagination(m, d, p)
    case Failure(m, e) => NewErrorResponse(m, e)
  }

  /** `success` is true exactly for the two success constructors; every
      constructor keeps its message, the success ones keep their data, only
      the paged one carries pagination, and only the error one carries an error
      string and never data. */
  lemma SuccessIdentifiesConstructor<D>(c: Construction<D>)
    ensures Build(c).success <==> !c.Failure?
    ensures Build(c).message == c.message
    ensures !c.Failure? ==> Build(c).data == c.data && Build(c).error == ""
    ensures c.Failure? ==> Build(c).data.None? && Build(c).pagination.None? && Build(c).error == c.err
    ensures c.Success? ==> Build(c).pagination.None?
    ensures c.SuccessPaged? ==> Build(c).pagination == c.pagination
  {
  }

  /** The paged constructor without pagination builds the same response as the plain one. */
  lemma NilPaginationIsPlainSuccess<D>(message: string, data: Option<D>)
    ensures NewSuccessResponseWithPagination(message, data, None) == NewSuccessResponse(message, data)
  {
  }
}
