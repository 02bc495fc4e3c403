/**
 * The request context of go/pkg/utils/context/context.go: only its payload,
 * the request id and the requested language, is modelled.
 */
module RequestContext {

  datatype Context = Context(id: string, language: string)

  function New(id: string, language: string): Context
  {
    Context(id, language)
  }
}
