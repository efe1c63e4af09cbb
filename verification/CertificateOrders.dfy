/** The states of a certificate order, shared by the two models that follow it. */
module CertificateOrders {
  datatype OrderStatus = Pending | Presenting | Presented | Issuing | Issued | DnsFailed | IssueFailed
}
