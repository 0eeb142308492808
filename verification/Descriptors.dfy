/** Proto descriptors as the modelled code reads them: files, services, methods and their HTTP rules. */
module Descriptors {
  datatype Verb = Get | Post | Put | Delete | Patch

  /** A google.api.http rule: no pattern, one of the five standard verbs, or a custom kind. */
  datatype HttpRule =
    | NoPattern
    | Standard(verb: Verb, path: string, body: string, responseBody: string)
    | Custom(kind: string, path: string, body: string, responseBody: string)

  /** input and output are message names; inputFields the names of the input's fields. */
  datatype Method = Method(
    name: string, clientStreaming: bool, serverStreaming: bool,
    input: string, output: string, inputFields: seq<string>, rules: seq<HttpRule>)

  datatype Service = Service(fullName: string, name: string, methods: seq<Method>)

  datatype File = File(path: string, package: string, services: seq<Service>)

  function FullMethod(s: Service, m: Method): string {
    "/" + s.fullName + "/" + m.name
  }
}
