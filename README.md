# SOAP message spine and default HTTP error responses

This project models two pieces of Apache Axis2 in Dafny and proves properties of the model.

**The XML spine** (`XMLSpineImpl`) is the lightweight form of a JAX-WS message part.
- It holds a SOAP envelope with a Header and a Body.
- Body blocks are addressed by ordinal. The ordinal counts element children only; text and other nodes are skipped.
- Header blocks are addressed by qualified name. The first child with that name is the one used.
- Under RPC style, body blocks live under one operation element. A `PLACEHOLDER_OPERATION` element with an empty namespace is created when there is none. Under Document style, or when the Body holds a fault, they live directly under the Body.
- Reading a block materialises it: the element is replaced, at the same position, by a sourced stand-in with the same name. The block is handed to the spine's message.
- Faults are read from the Body into a normalised fault (code, reason, detail blocks). Writing a fault first detaches every Body child, then adds the new Fault element. The Fault shapes are reduced from section 4.4 of the W3C SOAP 1.1 Note and section 5.4 of SOAP 1.2 Part 1. The SOAP 1.2 Code and Reason hold their text directly, without the Value and Text children (see "## Left out").
- The protocol is given when the spine is built, or read off the envelope namespace. Every namespace other than the SOAP 1.1 and SOAP 1.2 ones is refused.
- A spine reports the content type `"SPINE"`.

**The default error responses** (`ErrorResponse`) form a memoising table keyed by HTTP status code.
- On the first request for a code, the table builds a plain-text HTTP/1.0 response and stores it.
- Every later request for that code gets the stored response back.

Files, one module each:
- `wrappers.dfy`: `Option` and `Result`.
- `xml_tree.dfy` (`XmlTree`): nodes, blocks, and element addressing by ordinal and by name.
- `soap.dfy` (`Soap`): protocols, envelope namespaces, and the Fault shape.
- `spine_model.dfy` (`SpineModel`): the value-level specification of every spine operation, and the lemmas about it.
- `spine.dfy` (`XmlSpine`): the `Envelope` and `Spine` classes, whose methods update the envelope in place and are proved against `SpineModel`.
- `error_response.dfy` (`ErrorResponses`): the response table class, and the lemmas about the responses it builds.

In `getXMLFault`, the code and reason are read from the Fault element as it was before its detail elements were materialised. Materialisation only replaces children of the Detail, so the Code and Reason children it reads are the same ones.

## Model

| member | source | states |
|---|---|---|
| XmlSpine.FactoryFor | maven2/modules/jaxws/src/org/apache/axis2/jaxws/message/impl/XMLSpineImpl.java:431-442 | A factory exists exactly for SOAP 1.1 and SOAP 1.2, and it builds that very protocol. Any other protocol gives the REST-not-supported error. |
| XmlSpine.Spine.FromProtocol | maven2/modules/jaxws/src/org/apache/axis2/jaxws/message/impl/XMLSpineImpl.java:85-91 | Fails with REST-not-supported exactly for the unknown protocol. Otherwise the spine has the given protocol and style, an empty Header, and the empty Body of its style. |
| XmlSpine.Spine.FromEnvelope | maven2/modules/jaxws/src/org/apache/axis2/jaxws/message/impl/XMLSpineImpl.java:99-111 | A missing Header or Body is created. The spine's protocol is the one the envelope namespace denotes, and the spine wraps that same envelope. It fails exactly when the namespace is neither SOAP namespace. |
| XmlSpine.Spine.Init | maven2/modules/jaxws/src/org/apache/axis2/jaxws/message/impl/XMLSpineImpl.java:117-133 | Header and Body exist afterwards. One that was there before is kept as it was; one that was missing is created empty. |
| XmlSpine.Spine.CreateEmptyEnvelope | maven2/modules/jaxws/src/org/apache/axis2/jaxws/message/impl/XMLSpineImpl.java:451-464 | A fresh envelope in the factory's namespace with an empty Header. Its Body holds just the placeholder operation under RPC, and nothing under Document. |
| SpineModel.EmptyBodyHasNoBlocks | maven2/modules/jaxws/src/org/apache/axis2/jaxws/message/impl/XMLSpineImpl.java:451-464 | A fresh Body is no fault, and looking up its anchor creates nothing. It has no body blocks. Its operation element is `PLACEHOLDER_OPERATION` under RPC, and there is none under Document. |
| XmlSpine.Spine.SetParent | maven2/modules/jaxws/src/org/apache/axis2/jaxws/message/impl/XMLSpineImpl.java:155-157 | The back reference to the owning message is the one given. |
| Soap.ProtocolOf | maven2/modules/jaxws/src/org/apache/axis2/jaxws/message/impl/XMLSpineImpl.java:103-110 | A known protocol's envelope namespace is the namespace given. The result is unknown exactly when neither SOAP version has that namespace. |
| XmlSpine.Spine.NumChildElements | maven2/modules/jaxws/src/org/apache/axis2/jaxws/message/impl/XMLSpineImpl.java:469-481 | The counting loop returns the number of element children, and 0 for a missing element. |
| XmlSpine.Spine.ChildElementAt | maven2/modules/jaxws/src/org/apache/axis2/jaxws/message/impl/XMLSpineImpl.java:488-504 | The search loop finds exactly the position of the index-th element child. It finds nothing for a missing element, or for an index that is negative or not below the element count. |
| XmlTree.ElementPos | maven2/modules/jaxws/src/org/apache/axis2/jaxws/message/impl/XMLSpineImpl.java:488-504 | An element child is found exactly when 0 <= index < element count. What is found is an element whose ordinal among the element children is index. |
| XmlTree.ElementPosOf | maven2/modules/jaxws/src/org/apache/axis2/jaxws/message/impl/XMLSpineImpl.java:488-504 | Every element child is found again by its own ordinal, so ordinals and element positions match one to one. |
| XmlSpine.Spine.ChildNamed | maven2/modules/jaxws/src/org/apache/axis2/jaxws/message/impl/XMLSpineImpl.java:511-521 | Nothing is found exactly when no child has the name (or the element is missing). Otherwise the result is a child with that name, and no earlier child has it. |
| XmlTree.FirstNamedSelect | maven2/modules/jaxws/src/org/apache/axis2/jaxws/message/impl/XMLSpineImpl.java:511-521 | The child found by name is the first of all children with that name, and the list of matches is empty exactly when none is found. |
| SpineModel.AnchorIn | maven2/modules/jaxws/src/org/apache/axis2/jaxws/message/impl/XMLSpineImpl.java:411-424 | The anchor is either the Body or an element child of the Body. |
| XmlSpine.Spine.BodyBlockParent | maven2/modules/jaxws/src/org/apache/axis2/jaxws/message/impl/XMLSpineImpl.java:411-424 | The Body becomes its resolved form, with a placeholder appended when an operation element is due but absent. The Header is unchanged. The anchor returned is the anchor of the new Body. |
| SpineModel.PlaceholderFirst | maven2/modules/jaxws/src/org/apache/axis2/jaxws/message/impl/XMLSpineImpl.java:415-420 | A placeholder appended to a Body without element children becomes its first element child, and it does not make the Body a fault. |
| SpineModel.ResolvedAnchor | maven2/modules/jaxws/src/org/apache/axis2/jaxws/message/impl/XMLSpineImpl.java:411-424 | Resolving keeps the fault status. The anchor is an operation element exactly under RPC without a fault. Resolving twice creates nothing more. |
| SpineModel.BodyIsAnchor | maven2/modules/jaxws/src/org/apache/axis2/jaxws/message/impl/XMLSpineImpl.java:347-363 | With a fault, or under Document, nothing is created. The Body's children are the blocks, there is no operation element, and renaming changes nothing. |
| SpineModel.BodyBlocksPutGet | maven2/modules/jaxws/src/org/apache/axis2/jaxws/message/impl/XMLSpineImpl.java:269-286 | Under Document style, or when the Body holds no fault, replacing the anchor's children keeps the anchor where it is, so the children written are the body blocks read back. |
| XmlSpine.Spine.GetNumBodyBlocks | maven2/modules/jaxws/src/org/apache/axis2/jaxws/message/impl/XMLSpineImpl.java:241-243 | The count is the number of element children of the anchor. The Body is resolved, and the Header is unchanged. |
| XmlSpine.Spine.GetBodyBlock | maven2/modules/jaxws/src/org/apache/axis2/jaxws/message/impl/XMLSpineImpl.java:250-267 | The result is that of materialising the index-th body block, and the Body holds the anchor's new children. On a missing block or a decode error the Body is only resolved. |
| SpineModel.TakeBlockByOrdinal | maven2/modules/jaxws/src/org/apache/axis2/jaxws/message/impl/XMLSpineImpl.java:250-267 | No block, and no error, exactly for an index out of range. Otherwise the result is the index-th element's block (its name and XML, owned by the message), or a decode error naming it. The element count and list length are unchanged. |
| SpineModel.BlockFromElement | maven2/modules/jaxws/src/org/apache/axis2/jaxws/message/impl/XMLSpineImpl.java:365-401 | Success exactly when the factory decodes the element's XML. The block has the element's name and is owned by the message. The element is replaced at its position by the block's stand-in, and on failure nothing changes. |
| SpineModel.MaterializeKeepsShape | maven2/modules/jaxws/src/org/apache/axis2/jaxws/message/impl/XMLSpineImpl.java:392-396 | Materialising keeps the length, the element count and every ordinal's position. The replaced element keeps its name, and every other node is untouched. |
| SpineModel.MaterializeIdempotent | maven2/modules/jaxws/src/org/apache/axis2/jaxws/message/impl/XMLSpineImpl.java:385-397 | Materialising a stand-in again yields the same block and leaves the list as it was. |
| XmlTree.StandIn | maven2/modules/jaxws/src/org/apache/axis2/jaxws/message/impl/XMLSpineImpl.java:403-405 | The stand-in is an element with the given name, and it shows exactly its block's XML. |
| XmlSpine.Spine.SetBodyBlock | maven2/modules/jaxws/src/org/apache/axis2/jaxws/message/impl/XMLSpineImpl.java:269-286 | The anchor's children become the old ones with the block's stand-in (owned by the message) put at the index. The Header is unchanged. |
| SpineModel.PutElementSpec | maven2/modules/jaxws/src/org/apache/axis2/jaxws/message/impl/XMLSpineImpl.java:269-286 | For an existing index, the index-th element is replaced in place: same length, same element count, other nodes unchanged. For any other index, the stand-in is appended and the count grows by one. |
| SpineModel.SetThenGetBodyBlock | maven2/modules/jaxws/src/org/apache/axis2/jaxws/message/impl/XMLSpineImpl.java:250-286 | Under Document style, or when the Body holds no fault: after setBodyBlock, the element count is unchanged for an existing index and one more otherwise. getBodyBlock at the written ordinal (the index, or the old count) yields the block, owned by the message, or the decode error. |
| XmlSpine.Spine.RemoveBodyBlock | maven2/modules/jaxws/src/org/apache/axis2/jaxws/message/impl/XMLSpineImpl.java:288-293 | The anchor's children lose their index-th element. The Header is unchanged. |
| SpineModel.RemoveElementSpec | maven2/modules/jaxws/src/org/apache/axis2/jaxws/message/impl/XMLSpineImpl.java:288-293 | For an existing index, exactly that element leaves: the element list loses that entry and the length drops by one. For any other index, nothing changes. |
| XmlSpine.Spine.GetNumHeaderBlocks | maven2/modules/jaxws/src/org/apache/axis2/jaxws/message/impl/XMLSpineImpl.java:295-297 | The number of element children of the Header, and 0 when there is no Header. Nothing changes. |
| XmlSpine.Spine.GetHeaderBlock | maven2/modules/jaxws/src/org/apache/axis2/jaxws/message/impl/XMLSpineImpl.java:299-305 | The result is that of materialising the first child with the name. Without a Header, or without a match, it is nothing, and a missing Header stays missing. The Body is unchanged. |
| XmlSpine.Spine.SetHeaderBlock | maven2/modules/jaxws/src/org/apache/axis2/jaxws/message/impl/XMLSpineImpl.java:307-320 | The Header (created when missing) has its first child with the name replaced by the block's stand-in, or the stand-in is appended. The Body is unchanged. |
| SpineModel.PutNamedFinds | maven2/modules/jaxws/src/org/apache/axis2/jaxws/message/impl/XMLSpineImpl.java:307-320 | Afterwards the first child with the name is the new stand-in. It replaces the old first match, and the later matches stay, or it is the only match. |
| SpineModel.PutNamedOthers | maven2/modules/jaxws/src/org/apache/axis2/jaxws/message/impl/XMLSpineImpl.java:307-320 | The children with any other name are exactly as before. |
| SpineModel.SetThenGetHeaderBlock | maven2/modules/jaxws/src/org/apache/axis2/jaxws/message/impl/XMLSpineImpl.java:299-320 | After setHeaderBlock, getHeaderBlock with the same name yields the block under that name, owned by the message, or the decode error. |
| XmlSpine.Spine.RemoveHeaderBlock | maven2/modules/jaxws/src/org/apache/axis2/jaxws/message/impl/XMLSpineImpl.java:323-328 | The first child with the name is detached. A missing Header stays missing, and the Body is unchanged. |
| SpineModel.RemoveNamedFirst | maven2/modules/jaxws/src/org/apache/axis2/jaxws/message/impl/XMLSpineImpl.java:323-328 | Only the first match leaves, and the later ones stay. Without a match, nothing changes. |
| SpineModel.RemoveNamedOthers | maven2/modules/jaxws/src/org/apache/axis2/jaxws/message/impl/XMLSpineImpl.java:323-328 | The children with any other name are exactly as before. |
| XmlSpine.Spine.GetOperationElement | maven2/modules/jaxws/src/org/apache/axis2/jaxws/message/impl/XMLSpineImpl.java:347-354 | The name of the anchor when it is an operation element, and nothing when it is the Body. The Body is resolved. |
| XmlSpine.Spine.SetOperationElement | maven2/modules/jaxws/src/org/apache/axis2/jaxws/message/impl/XMLSpineImpl.java:356-363 | The operation element, if the anchor is one, gets the given namespace and local part. The Header is unchanged. |
| SpineModel.RenameThenRead | maven2/modules/jaxws/src/org/apache/axis2/jaxws/message/impl/XMLSpineImpl.java:347-363 | After renaming to q, the operation element reads back as q exactly when there is one and q is not the Fault name. The body blocks are unchanged. |
| XmlSpine.Spine.XMLPartContentType | maven2/modules/jaxws/src/org/apache/axis2/jaxws/message/impl/XMLSpineImpl.java:335-337 | The content type of a part held as a spine is the constant `"SPINE"`. |
| XmlSpine.Spine.IsFault | maven2/modules/jaxws/src/org/apache/axis2/jaxws/message/impl/XMLSpineImpl.java:339-341 | True exactly when the Body has an element child of ordinal 0 and that element carries the protocol's Fault name; other nodes before it do not count. |
| Soap.FaultIsFirstElement | maven2/modules/jaxws/src/org/apache/axis2/jaxws/message/impl/XMLSpineImpl.java:339-341 | The fault test used throughout holds exactly when the first element child of the Body is named Fault in the protocol's envelope namespace. |
| XmlSpine.Spine.GetNumDetailBlocks | maven2/modules/jaxws/src/org/apache/axis2/jaxws/message/impl/XMLSpineImpl.java:205-211 | The number of element children of the fault's Detail. It is 0 without a fault or without a Detail. |
| XmlSpine.Spine.GetXMLFault | maven2/modules/jaxws/src/org/apache/axis2/jaxws/message/impl/XMLSpineImpl.java:182-203 | Nothing exactly when the Body holds no fault. Otherwise the fault's code and reason, and one block per Detail element in document order. The Detail elements are replaced by their stand-ins. |
| XmlSpine.Spine.MaterializeDetail | maven2/modules/jaxws/src/org/apache/axis2/jaxws/message/impl/XMLSpineImpl.java:192-199 | The loop yields exactly one block per element child, in order, and leaves every element child replaced by its stand-in. |
| SpineModel.PartlyMaterializedStep | maven2/modules/jaxws/src/org/apache/axis2/jaxws/message/impl/XMLSpineImpl.java:194-197 | Halfway through the loop, the i-th element is still at its original position. It yields the i-th block of the original children, and one more element is materialised. |
| SpineModel.PartlyMaterializedDone | maven2/modules/jaxws/src/org/apache/axis2/jaxws/message/impl/XMLSpineImpl.java:192-199 | Once every ordinal is done, every element child has been materialised. |
| XmlSpine.Spine.SetXMLFault | maven2/modules/jaxws/src/org/apache/axis2/jaxws/message/impl/XMLSpineImpl.java:213-227 | Every former Body child is gone, and the Body holds only the Fault element built for the fault. The Header is unchanged. |
| Soap.FaultElementFields | maven2/modules/jaxws/src/org/apache/axis2/jaxws/message/impl/XMLSpineImpl.java:226 | The Fault element built for a fault reads back the same code and reason. Its Detail, present when there are detail blocks, holds exactly their stand-ins. |
| SpineModel.FaultRoundTrip | maven2/modules/jaxws/src/org/apache/axis2/jaxws/message/impl/XMLSpineImpl.java:182-227 | A Body written by setXMLFault is a fault. Reading it gives back the same code, reason and detail blocks, now owned by the reader's message. |
| ErrorResponses.ErrorResponse.GetResponse | modules/core/src/org/apache/axis2/transport/http/server/ErrorResponse.java:51-69 | The response is the default response of the code. A code already in the table gets its stored response, with the table unchanged. Otherwise the new response is stored under the code, and every other entry is untouched. |
| ErrorResponses.StandardResponseHeaders | modules/core/src/org/apache/axis2/transport/http/server/ErrorResponse.java:56-65 | The status line is HTTP/1.0 with exactly the code. The headers are Content-Type `text/plain; charset=US-ASCII` and Connection `close`. Content-Length reads back as the body's length. |
| ErrorResponses.BodyFallsBackToCode | modules/core/src/org/apache/axis2/transport/http/server/ErrorResponse.java:59-63 | The body is the standard status text when there is one. Otherwise it is `Error ` followed by text that reads back as the code. |
| ErrorResponses.DecimalRoundTrip | modules/core/src/org/apache/axis2/transport/http/server/ErrorResponse.java:61-65 | The decimal text of every integer, negative ones included, reads back as that integer. |

## Left out

- Streaming output (`outputTo`, `getXMLStreamReader`) and `getAsOMElement` are not modelled. These are StAX I/O over the tree.
- `isConsumed` is not modelled. In the source it always returns false, because nothing assigns `consumed` after its initial `false` (XMLSpineImpl.java:75).
- XML parsing and the builder's completeness (`setComplete`, how far the parser has advanced) are not modelled. Every node is taken as already parsed.
- Logging and `traceString` are not modelled.
- Block factories and blocks are foreign code. A factory is reduced to which XML it can decode. A block is reduced to its name, its XML and its owner. The business object, and the factory's context argument, are not modelled.
- `XMLFaultUtils` is foreign code. `isFault` and `SOAPBody.hasFault` are both taken as "the Body's first element child is the protocol's Fault element". `createXMLFault` and `createSOAPFault` are reduced to code, reason and detail. The nested Value and Text children of the SOAP 1.2 Code and Reason are not modelled, and neither are roles, nodes, subcodes or languages.
- Axiom's `getChildrenWithName` also matches on the local part alone when the namespace is empty. The model matches the whole qualified name.
- Namespace prefixes are not modelled. Qualified names are compared by namespace URI and local part.
- The Header and the Body are separate fields of the envelope. Their order inside the envelope is not modelled.
- XmlSpine.Spine.FromEnvelope: the factory comes from the envelope namespace. What `MessageUtils.getSOAPFactory` does for another namespace is not part of this model. A missing Header or Body is created before the namespace is refused, as in the source's order of steps.
- XmlSpine.Spine.CreateEmptyEnvelope: it takes no protocol argument, because the source never reads it. The factory alone fixes the namespace.
- XmlSpine.Spine.SetOperationElement: the prefix of the new name is dropped, with prefixes not being modelled.
- XmlSpine.Spine.MaterializeDetail: the loop works on the Detail's children as a value, and `GetXMLFault` stores the result once. The source replaces each detail element in the tree as it goes. Nothing observes the tree in between.
- XmlTree.StandIn: a stand-in shows its block's XML only as a whole, through `View`. Navigating into it finds no children; in the source, navigating into a sourced element expands the block's XML. Two consequences follow. After a Body's Fault element is read as a body block, `GetXMLFault` reads an empty code, reason and detail, while `IsFault` still holds. Under RPC, when a block's stand-in becomes the operation element, `GetNumBodyBlocks` counts 0, whatever element children the block's XML holds.
- Blocks are values. `setBodyBlock` and `setHeaderBlock` set the owner on the caller's block object in the source; here the stored stand-in carries the owner, and the caller's block is not changed.
- ErrorResponses.ErrorResponse.GetResponse: "the very same object" is stated as "the entry stored in the table, unchanged". Responses are values, so object identity is not modelled.
- `HttpStatus.getStatusText` is an abstract table (`statusText`) fixed when the response table is created.
- `SimpleResponse` and `Header` are not part of this model. `setHeader` is taken to replace every header of that name, and `addHeader` to append one.
- The static `responses` map is a field of one `ErrorResponse` object. Its single-threaded use is assumed.
- Java's 32-bit `int` range for status codes and indexes is not modelled; integers are unbounded. No arithmetic on them can overflow in the source either: an index is only compared, and a code is only printed.
