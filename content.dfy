/**
  The chat library's message records, reduced to what the chat script reads:
  a message has a role (`"user"`, `"model"`, ...) and a list of parts, and each
  part carries text.
*/
module Content {

  datatype Part = Part(text: string)

  datatype Message = Message(role: string, parts: seq<Part>)
}
