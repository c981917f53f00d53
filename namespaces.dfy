/** The namespace URIs the XPath parser and the XSD components share. */
module Namespaces {
  const XmlNamespace := "http://www.w3.org/XML/1998/namespace"
  const XsdNamespace := "http://www.w3.org/2001/XMLSchema"
  const XLinkNamespace := "http://www.w3.org/1999/xlink"
  const XPathFunctionsNamespace := "http://www.w3.org/2005/xpath-functions"
  const XqtErrorsNamespace := "http://www.w3.org/2005/xqt-errors"
}
