/** Values shared by the routes and the client components. */
module Common {

  datatype Option<+T> = None | Some(value: T)

  /** A field read from a parsed JSON request body: missing (or another falsy
      value such as null), present with the shape the route expects, or present
      with a shape the route's code cannot handle (a non-array where an array
      is expected). */
  datatype Field<+T> = Absent | Present(value: T) | Malformed

  /** The three kinds of article the generate route writes. */
  datatype ArticleType = Review | Tutorial | General

  /** A system prompt. The template texts themselves are not modelled: a
      prompt is named by what selects it. `ArticlePrompt(k, topic)` is the
      template of kind k with the topic inserted, `PlatformPersona(key)` the
      persona text a platform key maps to, `RewriteStyle` the fixed
      instruction of the rewrite route. */
  datatype Prompt = ArticlePrompt(kind: ArticleType, topic: string) | PlatformPersona(platform: string) | RewriteStyle

  /** One chat-completion request: the system message and the user message. */
  datatype Request = Request(system: Prompt, user: string)

  /** What one call to the text-generation backend gives back: the content of
      the first choice, or the message of the error the call threw. */
  datatype Reply = Completed(text: string) | Failed(message: string)

  /** The text-generation backend, seen as a function from request to reply. */
  type Backend = Request -> Reply

  /** The image search: a keyword to the URL of its first thumbnail, if any. */
  type ImageLookup = string -> Option<string>

  /** The message of an error response: a fixed text of the route, or the
      message of an exception thrown by the JavaScript runtime (a TypeError
      on a missing field, say), whose wording is not modelled. */
  datatype ErrorText = Text(text: string) | RuntimeMessage

  /** A paragraph sent to the rewrite route: the position of its op in the
      editor document and the op's text. */
  datatype Block = Block(index: int, content: string)

  /** What the rewrite route returns for one block. */
  datatype Rewritten = Rewritten(index: int, newContent: string)
}
